/** The nine tables and the identity counter as one value, and what each store
    operation does to them. The classes of module `MemStores` are proved against
    these functions. */
module Tables {
  import opened Wrappers
  import opened Types

  datatype Tables = Tables(
    users: map<string, UserRecord>,
    nextUserId: nat,
    groups: map<string, GroupRecord>,
    policies: map<string, PolicyRecord>,
    /** `(group, username)` */
    groupMembers: set<(string, string)>,
    /** `(username, policy)` */
    userPolicies: set<(string, string)>,
    /** `(group, policy)` */
    groupPolicies: set<(string, string)>,
    credentials: map<string, CredentialRecord>,
    externalPrincipals: map<string, ExternalPrincipalRecord>,
    claimedTokenIds: map<string, int>)

  const EMPTY := Tables(map[], 0, map[], map[], {}, {}, {}, map[], map[], map[])

  /** The tables after an operation, and its answer. */
  datatype Reply<+T> = Reply(tables: Tables, result: Result<T, StoreError>)

  // ---------------------------------------------------------------------
  // Users
  // ---------------------------------------------------------------------

  predicate EmailTaken(users: map<string, UserRecord>, email: string)
  {
    exists name | name in users :: users[name].email == Some(email)
  }

  predicate ExternalIdTaken(users: map<string, UserRecord>, externalId: string)
  {
    exists name | name in users :: users[name].externalId == Some(externalId)
  }

  function InsertUser(t: Tables, user: NewUser): Reply<UserRecord>
  {
    if user.username in t.users then
      Reply(t, Err(AlreadyExists("user", user.username)))
    else if user.email.Some? && EmailTaken(t.users, user.email.value) then
      Reply(t, Err(AlreadyExists("user with email", user.email.value)))
    else if user.externalId.Some? && ExternalIdTaken(t.users, user.externalId.value) then
      Reply(t, Err(AlreadyExists("user with external id", user.externalId.value)))
    else
      var record := user.WithId(t.nextUserId + 1);
      Reply(t.(users := t.users[user.username := record], nextUserId := t.nextUserId + 1), Ok(record))
  }

  function CascadeDeleteUser(t: Tables, username: string): Tables
  {
    t.(groupMembers := (set row | row in t.groupMembers && row.1 != username),
       userPolicies := (set row | row in t.userPolicies && row.0 != username),
       credentials := (map key | key in t.credentials && t.credentials[key].username != username :: t.credentials[key]),
       externalPrincipals := (map key | key in t.externalPrincipals && t.externalPrincipals[key].username != username ::
         t.externalPrincipals[key]))
  }

  function DeleteUser(t: Tables, username: string): Reply<()>
  {
    if username !in t.users then Reply(t, Err(NotFound("user", username)))
    else Reply(CascadeDeleteUser(t.(users := t.users - {username}), username), Ok(()))
  }

  function SetFriendlyName(t: Tables, username: string, friendlyName: string): Reply<()>
  {
    if username !in t.users then Reply(t, Err(NotFound("user", username)))
    else Reply(t.(users := t.users[username := t.users[username].(friendlyName := Some(friendlyName))]), Ok(()))
  }

  // ---------------------------------------------------------------------
  // Groups and policies
  // ---------------------------------------------------------------------

  function InsertGroup(t: Tables, group: GroupRecord): Reply<GroupRecord>
  {
    if group.id in t.groups then Reply(t, Err(AlreadyExists("group", group.id)))
    else Reply(t.(groups := t.groups[group.id := group]), Ok(group))
  }

  function DeleteGroup(t: Tables, group: string): Reply<()>
  {
    if group !in t.groups then Reply(t, Err(NotFound("group", group)))
    else Reply(
      t.(groups := t.groups - {group},
         groupMembers := (set row | row in t.groupMembers && row.0 != group),
         groupPolicies := (set row | row in t.groupPolicies && row.0 != group)),
      Ok(()))
  }

  function InsertPolicy(t: Tables, policy: PolicyRecord): Reply<PolicyRecord>
  {
    if policy.name in t.policies then Reply(t, Err(AlreadyExists("policy", policy.name)))
    else Reply(t.(policies := t.policies[policy.name := policy]), Ok(policy))
  }

  function UpdatePolicy(t: Tables, policy: PolicyRecord): Reply<PolicyRecord>
  {
    if policy.name !in t.policies then Reply(t, Err(NotFound("policy", policy.name)))
    else
      var slot := t.policies[policy.name].(creationDate := policy.creationDate, statement := policy.statement, acl := policy.acl);
      Reply(t.(policies := t.policies[policy.name := slot]), Ok(slot))
  }

  function DeletePolicy(t: Tables, name: string): Reply<()>
  {
    if name !in t.policies then Reply(t, Err(NotFound("policy", name)))
    else Reply(
      t.(policies := t.policies - {name},
         userPolicies := (set row | row in t.userPolicies && row.1 != name),
         groupPolicies := (set row | row in t.groupPolicies && row.1 != name)),
      Ok(()))
  }

  // ---------------------------------------------------------------------
  // Memberships and attachments
  // ---------------------------------------------------------------------

  /** The error of the first reference that is missing, if any. */
  function Missing(found0: bool, error0: StoreError, found1: bool, error1: StoreError): Option<StoreError>
  {
    if !found0 then Some(error0) else if !found1 then Some(error1) else None
  }

  function AddMembership(t: Tables, group: string, username: string): Reply<()>
  {
    match Missing(group in t.groups, NotFound("group", group), username in t.users, NotFound("user", username))
    case Some(error) => Reply(t, Err(error))
    case None => Reply(t.(groupMembers := t.groupMembers + {(group, username)}), Ok(()))
  }

  function RemoveMembership(t: Tables, group: string, username: string): Reply<()>
  {
    if (group, username) !in t.groupMembers then Reply(t, Err(NotFound("group membership", username)))
    else Reply(t.(groupMembers := t.groupMembers - {(group, username)}), Ok(()))
  }

  function AttachToUser(t: Tables, username: string, policy: string): Reply<()>
  {
    match Missing(username in t.users, NotFound("user", username), policy in t.policies, NotFound("policy", policy))
    case Some(error) => Reply(t, Err(error))
    case None => Reply(t.(userPolicies := t.userPolicies + {(username, policy)}), Ok(()))
  }

  function DetachFromUser(t: Tables, username: string, policy: string): Reply<()>
  {
    if (username, policy) !in t.userPolicies then Reply(t, Err(NotFound("policy attachment", policy)))
    else Reply(t.(userPolicies := t.userPolicies - {(username, policy)}), Ok(()))
  }

  function AttachToGroup(t: Tables, group: string, policy: string): Reply<()>
  {
    match Missing(group in t.groups, NotFound("group", group), policy in t.policies, NotFound("policy", policy))
    case Some(error) => Reply(t, Err(error))
    case None => Reply(t.(groupPolicies := t.groupPolicies + {(group, policy)}), Ok(()))
  }

  function DetachFromGroup(t: Tables, group: string, policy: string): Reply<()>
  {
    if (group, policy) !in t.groupPolicies then Reply(t, Err(NotFound("policy attachment", policy)))
    else Reply(t.(groupPolicies := t.groupPolicies - {(group, policy)}), Ok(()))
  }

  // ---------------------------------------------------------------------
  // Credentials, external principals, token ids
  // ---------------------------------------------------------------------

  function InsertCredential(t: Tables, credential: NewCredential): Reply<CredentialRecord>
  {
    if credential.username !in t.users then
      Reply(t, Err(NotFound("user", credential.username)))
    else if credential.accessKeyId in t.credentials then
      Reply(t, Err(AlreadyExists("credentials", credential.accessKeyId)))
    else
      var record := CredentialRecord(
        credential.accessKeyId, credential.username, t.users[credential.username].userId,
        credential.secretCiphertext, credential.creationDate);
      Reply(t.(credentials := t.credentials[credential.accessKeyId := record]), Ok(record))
  }

  function DeleteCredential(t: Tables, username: string, accessKeyId: string): Reply<()>
  {
    if accessKeyId in t.credentials && t.credentials[accessKeyId].username == username
    then Reply(t.(credentials := t.credentials - {accessKeyId}), Ok(()))
    else Reply(t, Err(NotFound("credentials", accessKeyId)))
  }

  function InsertExternalPrincipal(t: Tables, username: string, id: string): Reply<()>
  {
    match Missing(username in t.users, NotFound("user", username), id !in t.externalPrincipals, AlreadyExists("external principal", id))
    case Some(error) => Reply(t, Err(error))
    case None =>
      Reply(t.(externalPrincipals := t.externalPrincipals[id := ExternalPrincipalRecord(id, username)]), Ok(()))
  }

  function DeleteExternalPrincipal(t: Tables, username: string, id: string): Reply<()>
  {
    if id in t.externalPrincipals && t.externalPrincipals[id].username == username
    then Reply(t.(externalPrincipals := t.externalPrincipals - {id}), Ok(()))
    else Reply(t, Err(NotFound("external principal", id)))
  }

  function ClaimTokenId(t: Tables, id: string, expiresAt: int): Reply<()>
  {
    if id in t.claimedTokenIds then Reply(t, Err(AlreadyExists("token id", id)))
    else Reply(t.(claimedTokenIds := t.claimedTokenIds[id := expiresAt]), Ok(()))
  }

  function DeleteExpiredTokenIds(t: Tables, now: int): Reply<nat>
  {
    var kept := map id | id in t.claimedTokenIds && t.claimedTokenIds[id] > now :: t.claimedTokenIds[id];
    assert kept.Keys <= t.claimedTokenIds.Keys;
    KeptAreFewer(kept.Keys, t.claimedTokenIds.Keys);
    Reply(t.(claimedTokenIds := kept), Ok(|t.claimedTokenIds| - |kept|))
  }

  lemma {:induction false} KeptAreFewer<T>(kept: set<T>, all: set<T>)
    requires kept <= all
    ensures |kept| <= |all|
  {
    assert |all| == |kept| + |all - kept| by {
      assert all == kept + (all - kept);
    }
  }

  // ---------------------------------------------------------------------
  // The invariant
  // ---------------------------------------------------------------------

  ghost predicate KeyedUsers(users: map<string, UserRecord>, nextUserId: nat)
  {
    forall name | name in users :: users[name].username == name && 1 <= users[name].userId <= nextUserId
  }

  ghost predicate UniqueIds(users: map<string, UserRecord>)
  {
    forall a, b | a in users && b in users && users[a].userId == users[b].userId :: a == b
  }

  ghost predicate UniqueEmails(users: map<string, UserRecord>)
  {
    forall a, b | a in users && b in users && users[a].email.Some? && users[a].email == users[b].email :: a == b
  }

  ghost predicate UniqueExternalIds(users: map<string, UserRecord>)
  {
    forall a, b | a in users && b in users && users[a].externalId.Some? && users[a].externalId == users[b].externalId ::
      a == b
  }

  ghost predicate KeyedGroups(groups: map<string, GroupRecord>)
  {
    forall id | id in groups :: groups[id].id == id
  }

  ghost predicate KeyedPolicies(policies: map<string, PolicyRecord>)
  {
    forall name | name in policies :: policies[name].name == name
  }

  /** Both columns of every row refer to stored rows. */
  ghost predicate Refers(rows: set<(string, string)>, first: set<string>, second: set<string>)
  {
    forall row | row in rows :: row.0 in first && row.1 in second
  }

  /** A credential belongs to a stored user and carries its current id. */
  ghost predicate OwnedCredentials(credentials: map<string, CredentialRecord>, users: map<string, UserRecord>)
  {
    forall key | key in credentials ::
      && credentials[key].accessKeyId == key
      && credentials[key].username in users
      && credentials[key].userId == users[credentials[key].username].userId
  }

  ghost predicate OwnedPrincipals(principals: map<string, ExternalPrincipalRecord>, users: map<string, UserRecord>)
  {
    forall id | id in principals :: principals[id].id == id && principals[id].username in users
  }

  ghost predicate Valid(t: Tables)
  {
    && KeyedUsers(t.users, t.nextUserId)
    && UniqueIds(t.users)
    && UniqueEmails(t.users)
    && UniqueExternalIds(t.users)
    && KeyedGroups(t.groups)
    && KeyedPolicies(t.policies)
    && Refers(t.groupMembers, t.groups.Keys, t.users.Keys)
    && Refers(t.userPolicies, t.users.Keys, t.policies.Keys)
    && Refers(t.groupPolicies, t.groups.Keys, t.policies.Keys)
    && OwnedCredentials(t.credentials, t.users)
    && OwnedPrincipals(t.externalPrincipals, t.users)
  }

  /** No dependent row mentions the user. */
  ghost predicate NoDependents(t: Tables, username: string)
  {
    && (forall row | row in t.groupMembers :: row.1 != username)
    && (forall row | row in t.userPolicies :: row.0 != username)
    && (forall key | key in t.credentials :: t.credentials[key].username != username)
    && (forall id | id in t.externalPrincipals :: t.externalPrincipals[id].username != username)
  }

  lemma InsertUserKeepsValid(t: Tables, user: NewUser)
    requires Valid(t)
    ensures Valid(InsertUser(t, user).tables)
  {
    hide KeyedUsers, UniqueIds, UniqueEmails, UniqueExternalIds, EmailTaken, ExternalIdTaken;
    if InsertUser(t, user).result.Ok? {
      FreshUserIsUnique(t.users, t.nextUserId, user.WithId(t.nextUserId + 1));
    }
  }

  lemma FreshUserIsUnique(users: map<string, UserRecord>, nextUserId: nat, user: UserRecord)
    requires KeyedUsers(users, nextUserId) && UniqueIds(users) && UniqueEmails(users) && UniqueExternalIds(users)
    requires user.username !in users && user.userId == nextUserId + 1
    requires user.email.Some? ==> !EmailTaken(users, user.email.value)
    requires user.externalId.Some? ==> !ExternalIdTaken(users, user.externalId.value)
    ensures var users' := users[user.username := user];
            KeyedUsers(users', nextUserId + 1) && UniqueIds(users') && UniqueEmails(users') && UniqueExternalIds(users')
  {
  }

  lemma DeleteUserKeepsValid(t: Tables, username: string)
    requires Valid(t)
    ensures Valid(DeleteUser(t, username).tables)
  {
  }
}
