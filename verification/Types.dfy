/** The records the store reads and writes. Timestamps are integers; secrets,
    password hashes and statements are opaque values to the store. */
module Types {
  import opened ByteStrings
  import opened Wrappers

  datatype UserRecord = UserRecord(
    username: string, userId: nat, creationDate: int, friendlyName: Option<string>, email: Option<string>,
    source: Option<string>, externalId: Option<string>, encryptedPassword: Option<Bytes>)

  datatype NewUser = NewUser(
    username: string, creationDate: int, friendlyName: Option<string>, email: Option<string>,
    source: Option<string>, externalId: Option<string>, encryptedPassword: Option<Bytes>)
  {
    predicate SameIdentityAs(existing: UserRecord) { externalId == existing.externalId }

    function WithId(userId: nat): UserRecord {
      UserRecord(username, userId, creationDate, friendlyName, email, source, externalId, encryptedPassword)
    }
  }

  /** `NewGroup` and `GroupRecord` have the same columns. */
  datatype GroupRecord = GroupRecord(id: string, description: Option<string>, creationDate: int)

  datatype Effect = Allow | Deny

  type Condition = map<string, map<string, seq<string>>>

  datatype Statement = Statement(effect: Effect, resource: string, action: seq<string>, condition: Option<Condition>)

  /** `NewPolicy` and `PolicyRecord` have the same columns. */
  datatype PolicyRecord = PolicyRecord(name: string, creationDate: int, statement: seq<Statement>, acl: Option<string>)

  datatype NewCredential = NewCredential(accessKeyId: string, username: string, secretCiphertext: Bytes, creationDate: int)

  datatype CredentialRecord = CredentialRecord(
    accessKeyId: string, username: string, userId: nat, secretCiphertext: Bytes, creationDate: int)

  datatype ExternalPrincipalRecord = ExternalPrincipalRecord(id: string, username: string)

  datatype StoreError =
    | NotFound(entity: string, id: string)
    | AlreadyExists(entity: string, id: string)
    | WrongIdentity(entity: string, id: string)
}
