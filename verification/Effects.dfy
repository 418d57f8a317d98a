/** What each operation does to the rows of the store, column by column: when it
    answers `Ok`, which row it leaves, and that nothing else moves. */
module Effects {
  import opened Wrappers
  import opened Types
  import opened Tables
  import opened Bootstrap
  import opened Runs

  /** The new keys are the old ones and `key`; every other row is as it was. */
  ghost predicate OneRow<T>(old_: map<string, T>, new_: map<string, T>, key: string)
  {
    new_.Keys == old_.Keys + {key} && forall other | other in old_ && other != key :: new_[other] == old_[other]
  }

  lemma InsertUserEffect(t: Tables, user: NewUser)
    ensures var Reply(t', result) := InsertUser(t, user);
            if user.username in t.users then
              t' == t && result == Err(AlreadyExists("user", user.username))
            else if exists name | name in t.users :: user.email.Some? && t.users[name].email == user.email then
              t' == t && result == Err(AlreadyExists("user with email", user.email.value))
            else if exists name | name in t.users :: user.externalId.Some? && t.users[name].externalId == user.externalId then
              t' == t && result == Err(AlreadyExists("user with external id", user.externalId.value))
            else
              && result == Ok(t'.users[user.username]) && OneRow(t.users, t'.users, user.username)
              && t' == t.(users := t'.users, nextUserId := t.nextUserId + 1)
              && var row := t'.users[user.username];
                 && row.username == user.username && row.userId == t.nextUserId + 1
                 && row.creationDate == user.creationDate && row.friendlyName == user.friendlyName
                 && row.email == user.email && row.source == user.source
                 && row.externalId == user.externalId && row.encryptedPassword == user.encryptedPassword
  {
    assert user.email.Some? ==> (EmailTaken(t.users, user.email.value) <==>
                                 exists name | name in t.users :: user.email.Some? && t.users[name].email == user.email);
    assert user.externalId.Some? ==>
        (ExternalIdTaken(t.users, user.externalId.value) <==>
         exists name | name in t.users :: user.externalId.Some? && t.users[name].externalId == user.externalId);
    hide EmailTaken, ExternalIdTaken;
  }

  /** Only the friendly name of the one row changes. */
  lemma SetFriendlyNameEffect(t: Tables, username: string, friendlyName: string)
    ensures var Reply(t', result) := SetFriendlyName(t, username, friendlyName);
            && (result == Ok(()) <==> username in t.users)
            && (result.Err? ==> t' == t && result == Err(NotFound("user", username)))
            && (result.Ok? ==>
                 && OneRow(t.users, t'.users, username) && t' == t.(users := t'.users)
                 && var before, row := t.users[username], t'.users[username];
                    && row.friendlyName == Some(friendlyName)
                    && row.username == before.username && row.userId == before.userId
                    && row.creationDate == before.creationDate && row.email == before.email && row.source == before.source
                    && row.externalId == before.externalId && row.encryptedPassword == before.encryptedPassword)
  {
  }

  lemma InsertGroupEffect(t: Tables, group: GroupRecord)
    ensures var Reply(t', result) := InsertGroup(t, group);
            && (result.Ok? <==> group.id !in t.groups)
            && (result.Err? ==> t' == t && result == Err(AlreadyExists("group", group.id)))
            && (result.Ok? ==>
                 && OneRow(t.groups, t'.groups, group.id) && t' == t.(groups := t'.groups)
                 && t'.groups[group.id] == group == result.value)
  {
  }

  lemma InsertPolicyEffect(t: Tables, policy: PolicyRecord)
    ensures var Reply(t', result) := InsertPolicy(t, policy);
            && (result.Ok? <==> policy.name !in t.policies)
            && (result.Err? ==> t' == t && result == Err(AlreadyExists("policy", policy.name)))
            && (result.Ok? ==>
                 && OneRow(t.policies, t'.policies, policy.name) && t' == t.(policies := t'.policies)
                 && t'.policies[policy.name] == policy == result.value)
  {
  }

  /** After an update the stored row and the answer are the given policy. */
  lemma UpdatePolicyEffect(t: Tables, policy: PolicyRecord)
    requires Valid(t)
    ensures var Reply(t', result) := UpdatePolicy(t, policy);
            && (result.Ok? <==> policy.name in t.policies)
            && (result.Err? ==> t' == t && result == Err(NotFound("policy", policy.name)))
            && (result.Ok? ==>
                 && OneRow(t.policies, t'.policies, policy.name) && t' == t.(policies := t'.policies)
                 && t'.policies[policy.name] == policy == result.value)
  {
    hide KeyedUsers, UniqueIds, UniqueEmails, UniqueExternalIds;
  }

  /** A link is made when both ends exist; the owner's side is looked up first. */
  lemma LinkEffects(t: Tables, group: string, username: string, policy: string)
    ensures var Reply(t', result) := AddMembership(t, group, username);
            if group !in t.groups then t' == t && result == Err(NotFound("group", group))
            else if username !in t.users then t' == t && result == Err(NotFound("user", username))
            else
              && result == Ok(()) && t' == t.(groupMembers := t'.groupMembers)
              && forall row :: row in t'.groupMembers <==> row in t.groupMembers || (row.0 == group && row.1 == username)
    ensures var Reply(t', result) := AttachToUser(t, username, policy);
            if username !in t.users then t' == t && result == Err(NotFound("user", username))
            else if policy !in t.policies then t' == t && result == Err(NotFound("policy", policy))
            else
              && result == Ok(()) && t' == t.(userPolicies := t'.userPolicies)
              && forall row :: row in t'.userPolicies <==> row in t.userPolicies || (row.0 == username && row.1 == policy)
    ensures var Reply(t', result) := AttachToGroup(t, group, policy);
            if group !in t.groups then t' == t && result == Err(NotFound("group", group))
            else if policy !in t.policies then t' == t && result == Err(NotFound("policy", policy))
            else
              && result == Ok(()) && t' == t.(groupPolicies := t'.groupPolicies)
              && forall row :: row in t'.groupPolicies <==> row in t.groupPolicies || (row.0 == group && row.1 == policy)
  {
  }

  lemma UnlinkEffects(t: Tables, group: string, username: string, policy: string)
    ensures var Reply(t', result) := RemoveMembership(t, group, username);
            if (group, username) !in t.groupMembers then t' == t && result == Err(NotFound("group membership", username))
            else
              && result == Ok(()) && t' == t.(groupMembers := t'.groupMembers)
              && forall row :: row in t'.groupMembers <==> row in t.groupMembers && !(row.0 == group && row.1 == username)
    ensures var Reply(t', result) := DetachFromUser(t, username, policy);
            if (username, policy) !in t.userPolicies then t' == t && result == Err(NotFound("policy attachment", policy))
            else
              && result == Ok(()) && t' == t.(userPolicies := t'.userPolicies)
              && forall row :: row in t'.userPolicies <==> row in t.userPolicies && !(row.0 == username && row.1 == policy)
    ensures var Reply(t', result) := DetachFromGroup(t, group, policy);
            if (group, policy) !in t.groupPolicies then t' == t && result == Err(NotFound("policy attachment", policy))
            else
              && result == Ok(()) && t' == t.(groupPolicies := t'.groupPolicies)
              && forall row :: row in t'.groupPolicies <==> row in t.groupPolicies && !(row.0 == group && row.1 == policy)
  {
  }

  lemma InsertCredentialEffect(t: Tables, credential: NewCredential)
    ensures var Reply(t', result) := InsertCredential(t, credential);
            if credential.username !in t.users then t' == t && result == Err(NotFound("user", credential.username))
            else if credential.accessKeyId in t.credentials then
              t' == t && result == Err(AlreadyExists("credentials", credential.accessKeyId))
            else
              && OneRow(t.credentials, t'.credentials, credential.accessKeyId) && t' == t.(credentials := t'.credentials)
              && result == Ok(t'.credentials[credential.accessKeyId])
              && var row := t'.credentials[credential.accessKeyId];
                 && row.accessKeyId == credential.accessKeyId && row.username == credential.username
                 && row.userId == t.users[credential.username].userId
                 && row.secretCiphertext == credential.secretCiphertext && row.creationDate == credential.creationDate
  {
  }

  lemma InsertPrincipalEffect(t: Tables, username: string, id: string)
    ensures var Reply(t', result) := InsertExternalPrincipal(t, username, id);
            if username !in t.users then t' == t && result == Err(NotFound("user", username))
            else if id in t.externalPrincipals then t' == t && result == Err(AlreadyExists("external principal", id))
            else
              && result == Ok(()) && OneRow(t.externalPrincipals, t'.externalPrincipals, id)
              && t' == t.(externalPrincipals := t'.externalPrincipals)
              && t'.externalPrincipals[id].id == id && t'.externalPrincipals[id].username == username
  {
  }

  /** Deletes of a row that is not there, or not the caller's, answer not found and
      change nothing; all other deletes answer `Ok`. */
  lemma DeleteAnswers(t: Tables, username: string, key: string)
    ensures DeleteUser(t, key).result == if key in t.users then Ok(()) else Err(NotFound("user", key))
    ensures DeleteGroup(t, key).result == if key in t.groups then Ok(()) else Err(NotFound("group", key))
    ensures DeletePolicy(t, key).result == if key in t.policies then Ok(()) else Err(NotFound("policy", key))
    ensures DeleteCredential(t, username, key).result ==
            if key in t.credentials && t.credentials[key].username == username then Ok(())
            else Err(NotFound("credentials", key))
    ensures DeleteExternalPrincipal(t, username, key).result ==
            if key in t.externalPrincipals && t.externalPrincipals[key].username == username then Ok(())
            else Err(NotFound("external principal", key))
    ensures DeleteUser(t, key).result.Err? ==> DeleteUser(t, key).tables == t
    ensures DeleteGroup(t, key).result.Err? ==> DeleteGroup(t, key).tables == t
    ensures DeletePolicy(t, key).result.Err? ==> DeletePolicy(t, key).tables == t
    ensures DeleteCredential(t, username, key).result.Err? ==> DeleteCredential(t, username, key).tables == t
    ensures DeleteExternalPrincipal(t, username, key).result.Err? ==> DeleteExternalPrincipal(t, username, key).tables == t
  {
  }

  // ---------------------------------------------------------------------
  // Claimed token ids
  // ---------------------------------------------------------------------

  /** A cleanup takes exactly the ids that expire at or before its time. */
  lemma CleanupEffect(t: Tables, now: int)
    ensures var Reply(t', result) := DeleteExpiredTokenIds(t, now);
            && t' == t.(claimedTokenIds := t'.claimedTokenIds)
            && (forall id :: id in t'.claimedTokenIds <==> id in t.claimedTokenIds && t.claimedTokenIds[id] > now)
            && (forall id | id in t'.claimedTokenIds :: t'.claimedTokenIds[id] == t.claimedTokenIds[id])
            && result == Ok(|t.claimedTokenIds| - |t'.claimedTokenIds|)
  {
  }

  ghost predicate CleansUp(ops: seq<Op>, expiresAt: int)
  {
    exists i :: 0 <= i < |ops| && ops[i].Expire? && ops[i].now >= expiresAt
  }

  ghost predicate ClaimsAgain(ops: seq<Op>, id: string)
  {
    exists i :: 0 <= i < |ops| && ops[i].Claim? && ops[i].token == id
  }

  lemma DeleteKeepsClaims(t: Tables, username: string)
    ensures DeleteUser(t, username).tables.claimedTokenIds == t.claimedTokenIds
  {
  }

  lemma RowOpsKeepClaims(t: Tables, op: Op)
    requires op.CreateUser? || op.Rename? || op.CreateGroup? || op.RemoveGroup? || op.CreatePolicy? || op.ReplacePolicy?
             || op.RemovePolicy? || op.CreateCredential? || op.RemoveCredential?
    ensures Apply(t, op).claimedTokenIds == t.claimedTokenIds
  {
    hide EmailTaken, ExternalIdTaken, Bootstrapped, DeleteUser, AddMembership, AttachToUser, AttachToGroup, ClaimTokenId,
      DeleteExpiredTokenIds;
  }

  lemma LinkOpsKeepClaims(t: Tables, op: Op)
    requires op.Join? || op.Leave? || op.AttachUser? || op.DetachUser? || op.AttachGroup? || op.DetachGroup?
             || op.CreatePrincipal? || op.RemovePrincipal?
    ensures Apply(t, op).claimedTokenIds == t.claimedTokenIds
  {
    hide Bootstrapped, InsertUser, DeleteUser, DeleteGroup, DeletePolicy, UpdatePolicy, InsertCredential, ClaimTokenId,
      DeleteExpiredTokenIds;
  }

  lemma OtherOpsKeepClaims(t: Tables, op: Op)
    requires !op.Claim? && !op.Expire?
    ensures Apply(t, op).claimedTokenIds == t.claimedTokenIds
  {
    match op {
      case RunBootstrap(plan) => assert Apply(t, op) == Bootstrapped(t, plan).tables; BootstrapKeepsClaims(t, plan);
      case RemoveUser(username) => assert Apply(t, op) == DeleteUser(t, username).tables; DeleteKeepsClaims(t, username);
      case Join(_, _) => LinkOpsKeepClaims(t, op);
      case Leave(_, _) => LinkOpsKeepClaims(t, op);
      case AttachUser(_, _) => LinkOpsKeepClaims(t, op);
      case DetachUser(_, _) => LinkOpsKeepClaims(t, op);
      case AttachGroup(_, _) => LinkOpsKeepClaims(t, op);
      case DetachGroup(_, _) => LinkOpsKeepClaims(t, op);
      case CreatePrincipal(_, _) => LinkOpsKeepClaims(t, op);
      case RemovePrincipal(_, _) => LinkOpsKeepClaims(t, op);
      case _ => RowOpsKeepClaims(t, op);
    }
    hide Apply, Bootstrapped, DeleteUser;
  }

  lemma ClaimStep(t: Tables, op: Op, id: string)
    requires id in t.claimedTokenIds && !(op.Claim? && op.token == id)
    ensures var t' := Apply(t, op);
            if op.Expire? && op.now >= t.claimedTokenIds[id] then id !in t'.claimedTokenIds
            else id in t'.claimedTokenIds && t'.claimedTokenIds[id] == t.claimedTokenIds[id]
  {
    if !op.Claim? && !op.Expire? {
      OtherOpsKeepClaims(t, op);
    }
  }

  lemma FreeStep(t: Tables, op: Op, id: string)
    requires id !in t.claimedTokenIds && !(op.Claim? && op.token == id)
    ensures id !in Apply(t, op).claimedTokenIds
  {
    if !op.Claim? && !op.Expire? {
      OtherOpsKeepClaims(t, op);
    }
  }

  lemma {:induction false} FreedStaysFree(t: Tables, ops: seq<Op>, id: string)
    requires id !in t.claimedTokenIds && !ClaimsAgain(ops, id)
    ensures id !in Run(t, ops).claimedTokenIds
    decreases ops
  {
    if ops != [] {
      assert !(ops[0].Claim? && ops[0].token == id);
      FreeStep(t, ops[0], id);
      assert forall i :: 0 <= i < |ops[1..]| ==> ops[1..][i] == ops[i + 1];
      hide Apply;
      FreedStaysFree(Apply(t, ops[0]), ops[1..], id);
    }
  }

  lemma {:induction false} ClaimLives(t: Tables, ops: seq<Op>, id: string)
    requires id in t.claimedTokenIds && !ClaimsAgain(ops, id)
    ensures id in Run(t, ops).claimedTokenIds <==> !CleansUp(ops, t.claimedTokenIds[id])
    decreases ops
  {
    if ops != [] {
      assert !(ops[0].Claim? && ops[0].token == id);
      ClaimStep(t, ops[0], id);
      assert forall i :: 0 <= i < |ops[1..]| ==> ops[1..][i] == ops[i + 1];
      hide Apply;
      var next := Apply(t, ops[0]);
      if id in next.claimedTokenIds {
        ClaimLives(next, ops[1..], id);
        if CleansUp(ops, t.claimedTokenIds[id]) {
          var i :| 0 <= i < |ops| && ops[i].Expire? && ops[i].now >= t.claimedTokenIds[id];
          assert ops[1..][i - 1] == ops[i];
        }
      } else {
        FreedStaysFree(next, ops[1..], id);
      }
    }
  }

  /** A claimed token id is refused over every run, until a cleanup at or after its
      expiry, and can be claimed again from then on. */
  lemma ClaimIsHeld(t: Tables, id: string, expiresAt: int, between: seq<Op>, again: int)
    requires ClaimTokenId(t, id, expiresAt).result.Ok? && !ClaimsAgain(between, id)
    ensures id !in t.claimedTokenIds
    ensures var later := ClaimTokenId(Run(ClaimTokenId(t, id, expiresAt).tables, between), id, again);
            later.result == if CleansUp(between, expiresAt) then Ok(()) else Err(AlreadyExists("token id", id))
  {
    ClaimLives(ClaimTokenId(t, id, expiresAt).tables, between, id);
    hide Run, CleansUp, ClaimsAgain;
  }
}
