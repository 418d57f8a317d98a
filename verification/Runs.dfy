/** Every run of the store: any sequence of its operations, bootstrap included. */
module Runs {
  import opened Wrappers
  import opened Types
  import opened Tables
  import opened Bootstrap

  datatype Op =
    | CreateUser(user: NewUser)
    | RemoveUser(username: string)
    | Rename(username: string, friendlyName: string)
    | CreateGroup(newGroup: GroupRecord)
    | RemoveGroup(id: string)
    | CreatePolicy(policy: PolicyRecord)
    | ReplacePolicy(policy: PolicyRecord)
    | RemovePolicy(name: string)
    | Join(group: string, username: string)
    | Leave(group: string, username: string)
    | AttachUser(username: string, policyName: string)
    | DetachUser(username: string, policyName: string)
    | AttachGroup(group: string, policyName: string)
    | DetachGroup(group: string, policyName: string)
    | CreateCredential(credential: NewCredential)
    | RemoveCredential(username: string, key: string)
    | CreatePrincipal(username: string, principal: string)
    | RemovePrincipal(username: string, principal: string)
    | Claim(token: string, expiresAt: int)
    | Expire(now: int)
    | RunBootstrap(plan: BootstrapPlan)

  function Apply(t: Tables, op: Op): Tables
  {
    match op
    case CreateUser(user) => InsertUser(t, user).tables
    case RemoveUser(username) => DeleteUser(t, username).tables
    case Rename(username, friendlyName) => SetFriendlyName(t, username, friendlyName).tables
    case CreateGroup(group) => InsertGroup(t, group).tables
    case RemoveGroup(id) => DeleteGroup(t, id).tables
    case CreatePolicy(policy) => InsertPolicy(t, policy).tables
    case ReplacePolicy(policy) => UpdatePolicy(t, policy).tables
    case RemovePolicy(name) => DeletePolicy(t, name).tables
    case Join(group, username) => AddMembership(t, group, username).tables
    case Leave(group, username) => RemoveMembership(t, group, username).tables
    case AttachUser(username, policy) => AttachToUser(t, username, policy).tables
    case DetachUser(username, policy) => DetachFromUser(t, username, policy).tables
    case AttachGroup(group, policy) => AttachToGroup(t, group, policy).tables
    case DetachGroup(group, policy) => DetachFromGroup(t, group, policy).tables
    case CreateCredential(credential) => InsertCredential(t, credential).tables
    case RemoveCredential(username, key) => DeleteCredential(t, username, key).tables
    case CreatePrincipal(username, id) => InsertExternalPrincipal(t, username, id).tables
    case RemovePrincipal(username, id) => DeleteExternalPrincipal(t, username, id).tables
    case Claim(token, expiresAt) => ClaimTokenId(t, token, expiresAt).tables
    case Expire(now) => DeleteExpiredTokenIds(t, now).tables
    case RunBootstrap(plan) => Bootstrapped(t, plan).tables
  }

  function Run(t: Tables, ops: seq<Op>): Tables
    decreases ops
  {
    if ops == [] then t else Run(Apply(t, ops[0]), ops[1..])
  }

  // ---------------------------------------------------------------------
  // Where the users of a later state come from
  // ---------------------------------------------------------------------

  predicate SameButName(a: UserRecord, b: UserRecord)
  {
    b == a.(friendlyName := b.friendlyName)
  }

  /** A user of the later state was created since, under a new id, or is a user of
      the earlier state whose friendly name at most changed. */
  ghost predicate Origin(earlier: Tables, later: Tables)
  {
    && earlier.nextUserId <= later.nextUserId
    && forall name | name in later.users ::
         later.users[name].userId > earlier.nextUserId
         || (name in earlier.users && SameButName(earlier.users[name], later.users[name]))
  }

  lemma OriginIsTransitive(t0: Tables, t1: Tables, t2: Tables)
    requires Origin(t0, t1) && Origin(t1, t2)
    ensures Origin(t0, t2)
  {
  }

  ghost predicate GoodStep(t: Tables, t': Tables)
  {
    Valid(t) ==> Valid(t') && Origin(t, t')
  }

  lemma CreateUserStep(t: Tables, user: NewUser)
    ensures GoodStep(t, InsertUser(t, user).tables)
  {
    hide Valid, EmailTaken, ExternalIdTaken;
    if Valid(t) {
      InsertUserKeepsValid(t, user);
    }
  }

  lemma RemoveUserStep(t: Tables, username: string)
    ensures GoodStep(t, DeleteUser(t, username).tables)
  {
    if Valid(t) {
      DeleteUserKeepsValid(t, username);
      hide Valid;
    }
  }

  lemma RenameStep(t: Tables, username: string, friendlyName: string)
    ensures GoodStep(t, SetFriendlyName(t, username, friendlyName).tables)
  {
    hide KeyedUsers, UniqueIds, UniqueEmails, UniqueExternalIds;
    if Valid(t) && username in t.users {
      RenamedStaysUnique(t.users, t.nextUserId, username, friendlyName);
    }
  }

  lemma RenamedStaysUnique(users: map<string, UserRecord>, nextUserId: nat, username: string, friendlyName: string)
    requires KeyedUsers(users, nextUserId) && UniqueIds(users) && UniqueEmails(users) && UniqueExternalIds(users)
    requires username in users
    ensures var users' := users[username := users[username].(friendlyName := Some(friendlyName))];
            KeyedUsers(users', nextUserId) && UniqueIds(users') && UniqueEmails(users') && UniqueExternalIds(users')
  {
  }

  lemma CreateGroupStep(t: Tables, group: GroupRecord)
    ensures GoodStep(t, InsertGroup(t, group).tables)
  {
    hide KeyedUsers, UniqueIds, UniqueEmails, UniqueExternalIds;
  }

  lemma RemoveGroupStep(t: Tables, id: string)
    ensures GoodStep(t, DeleteGroup(t, id).tables)
  {
    hide KeyedUsers, UniqueIds, UniqueEmails, UniqueExternalIds;
  }

  lemma PolicySteps(t: Tables, policy: PolicyRecord)
    ensures GoodStep(t, InsertPolicy(t, policy).tables)
    ensures GoodStep(t, UpdatePolicy(t, policy).tables)
  {
    hide KeyedUsers, UniqueIds, UniqueEmails, UniqueExternalIds;
  }

  lemma RemovePolicyStep(t: Tables, name: string)
    ensures GoodStep(t, DeletePolicy(t, name).tables)
  {
    hide KeyedUsers, UniqueIds, UniqueEmails, UniqueExternalIds;
  }

  lemma MembershipSteps(t: Tables, group: string, username: string)
    ensures GoodStep(t, AddMembership(t, group, username).tables)
    ensures GoodStep(t, RemoveMembership(t, group, username).tables)
  {
    hide KeyedUsers, UniqueIds, UniqueEmails, UniqueExternalIds;
  }

  lemma UserPolicySteps(t: Tables, username: string, policy: string)
    ensures GoodStep(t, AttachToUser(t, username, policy).tables)
    ensures GoodStep(t, DetachFromUser(t, username, policy).tables)
  {
    hide KeyedUsers, UniqueIds, UniqueEmails, UniqueExternalIds;
  }

  lemma GroupPolicySteps(t: Tables, group: string, policy: string)
    ensures GoodStep(t, AttachToGroup(t, group, policy).tables)
    ensures GoodStep(t, DetachFromGroup(t, group, policy).tables)
  {
    hide KeyedUsers, UniqueIds, UniqueEmails, UniqueExternalIds;
  }

  lemma CredentialSteps(t: Tables, credential: NewCredential, username: string, key: string)
    ensures GoodStep(t, InsertCredential(t, credential).tables)
    ensures GoodStep(t, DeleteCredential(t, username, key).tables)
  {
    hide KeyedUsers, UniqueIds, UniqueEmails, UniqueExternalIds;
  }

  lemma PrincipalSteps(t: Tables, username: string, id: string)
    ensures GoodStep(t, InsertExternalPrincipal(t, username, id).tables)
    ensures GoodStep(t, DeleteExternalPrincipal(t, username, id).tables)
  {
    hide KeyedUsers, UniqueIds, UniqueEmails, UniqueExternalIds;
  }

  lemma TokenSteps(t: Tables, token: string, expiresAt: int, now: int)
    ensures GoodStep(t, ClaimTokenId(t, token, expiresAt).tables)
    ensures GoodStep(t, DeleteExpiredTokenIds(t, now).tables)
  {
    hide KeyedUsers, UniqueIds, UniqueEmails, UniqueExternalIds;
  }

  lemma {:induction false} BootstrapOrigin(t: Tables, report: Report, entries: seq<Entry>)
    requires Valid(t) && ApplyAll(Running(t, report), entries).Running?
    ensures Origin(t, ApplyAll(Running(t, report), entries).tables)
    decreases entries
  {
    if entries != [] {
      var next := ApplyEntry(Running(t, report), entries[0]);
      if next.Stopped? {
        StoppedStays(next, entries[1..]);
        assert false;
      }
      WriteIsSound(t, entries[0]);
      WriteOrigin(t, entries[0]);
      BootstrapOrigin(next.tables, next.report, entries[1..]);
      OriginIsTransitive(t, next.tables, ApplyAll(next, entries[1..]).tables);
    }
  }

  lemma WriteOrigin(t: Tables, entry: Entry)
    ensures Origin(t, Write(t, entry).tables)
  {
    hide EmailTaken, ExternalIdTaken;
    if !entry.UserEntry? {
      assert Write(t, entry).tables.users == t.users && Write(t, entry).tables.nextUserId == t.nextUserId;
    }
  }

  lemma BootstrapKeepsClaims(t: Tables, plan: BootstrapPlan)
    ensures Bootstrapped(t, plan).tables.claimedTokenIds == t.claimedTokenIds
  {
    if Bootstrapped(t, plan).result.Ok? {
      BootstrapIsAdditive(t, plan);
    }
  }

  lemma Step(t: Tables, op: Op)
    ensures GoodStep(t, Apply(t, op))
  {
    hide GoodStep, InsertUser, DeleteUser, SetFriendlyName, InsertGroup, DeleteGroup, InsertPolicy, UpdatePolicy,
      DeletePolicy, AddMembership, RemoveMembership, AttachToUser, DetachFromUser, AttachToGroup, DetachFromGroup,
      InsertCredential, DeleteCredential, InsertExternalPrincipal, DeleteExternalPrincipal, ClaimTokenId,
      DeleteExpiredTokenIds, Bootstrapped;
    match op {
      case CreateUser(user) => CreateUserStep(t, user);
      case RemoveUser(username) => RemoveUserStep(t, username);
      case Rename(username, friendlyName) => RenameStep(t, username, friendlyName);
      case CreateGroup(group) => CreateGroupStep(t, group);
      case RemoveGroup(id) => RemoveGroupStep(t, id);
      case CreatePolicy(policy) => PolicySteps(t, policy);
      case ReplacePolicy(policy) => PolicySteps(t, policy);
      case RemovePolicy(name) => RemovePolicyStep(t, name);
      case Join(group, username) => MembershipSteps(t, group, username);
      case Leave(group, username) => MembershipSteps(t, group, username);
      case AttachUser(username, policy) => UserPolicySteps(t, username, policy);
      case DetachUser(username, policy) => UserPolicySteps(t, username, policy);
      case AttachGroup(group, policy) => GroupPolicySteps(t, group, policy);
      case DetachGroup(group, policy) => GroupPolicySteps(t, group, policy);
      case CreateCredential(credential) => CredentialSteps(t, credential, "", "");
      case RemoveCredential(username, key) => CredentialSteps(t, NewCredential(key, username, [], 0), username, key);
      case CreatePrincipal(username, id) => PrincipalSteps(t, username, id);
      case RemovePrincipal(username, id) => PrincipalSteps(t, username, id);
      case Claim(token, expiresAt) => TokenSteps(t, token, expiresAt, 0);
      case Expire(now) => TokenSteps(t, "", 0, now);
      case RunBootstrap(plan) => BootstrapStep(t, plan);
    }
  }

  lemma BootstrapStep(t: Tables, plan: BootstrapPlan)
    ensures GoodStep(t, Bootstrapped(t, plan).tables)
  {
    if Valid(t) && Bootstrapped(t, plan).result.Ok? {
      BootstrapIsAdditive(t, plan);
      BootstrapOrigin(t, NOTHING, Entries(plan));
    }
  }

  // ---------------------------------------------------------------------
  // Main results
  // ---------------------------------------------------------------------

  /** The invariant and the origin of every user hold over every run. */
  lemma {:induction false} RunKeepsInvariant(t: Tables, ops: seq<Op>)
    requires Valid(t)
    ensures Valid(Run(t, ops)) && Origin(t, Run(t, ops))
    decreases ops
  {
    hide Apply, Valid;
    if ops != [] {
      Step(t, ops[0]);
      RunKeepsInvariant(Apply(t, ops[0]), ops[1..]);
      OriginIsTransitive(t, Apply(t, ops[0]), Run(t, ops));
    }
  }

  /** From the empty store every reachable state is valid. */
  lemma ReachableIsValid(ops: seq<Op>)
    ensures Valid(Run(EMPTY, ops))
  {
    RunKeepsInvariant(EMPTY, ops);
  }

  ghost predicate IdInUse(t: Tables, id: nat)
  {
    exists name | name in t.users :: t.users[name].userId == id
  }

  /** Ids are never reused: an id that was issued and is free stays free, and two
      users at different times with one id are one and the same user. */
  lemma IdsAreNeverReused(t: Tables, ops: seq<Op>, id: nat)
    requires Valid(t) && id <= t.nextUserId
    ensures !IdInUse(t, id) ==> !IdInUse(Run(t, ops), id)
    ensures forall a, b | a in t.users && b in Run(t, ops).users && t.users[a].userId == Run(t, ops).users[b].userId ::
              a == b && SameButName(t.users[a], Run(t, ops).users[b])
  {
    RunKeepsInvariant(t, ops);
  }

  lemma DeletedIdIsFree(t: Tables, username: string)
    requires Valid(t) && username in t.users
    ensures var gone := DeleteUser(t, username).tables;
            && t.users[username].userId <= t.nextUserId == gone.nextUserId
            && !IdInUse(gone, t.users[username].userId)
  {
    hide UniqueEmails, UniqueExternalIds, KeyedGroups, KeyedPolicies;
  }

  /** A user just inserted into a valid store has nothing attached and a fresh id. */
  lemma InsertedUserIsClean(t: Tables, user: NewUser)
    requires Valid(t) && InsertUser(t, user).result.Ok?
    ensures var created := InsertUser(t, user).tables;
            && NoDependents(created, user.username)
            && user.username in created.users
            && created.users[user.username].userId == t.nextUserId + 1
            && (forall id: nat | id <= t.nextUserId && !IdInUse(t, id) :: !IdInUse(created, id))
            && (forall key | key in created.credentials :: created.credentials[key].userId != t.nextUserId + 1)
  {
    hide EmailTaken, ExternalIdTaken, UniqueIds, UniqueEmails, UniqueExternalIds, KeyedGroups, KeyedPolicies;
  }

  /** A user that is created again after a delete, however much later, starts
      without dependent rows, under an id nobody had before. */
  lemma RecreatedUserStartsClean(t: Tables, between: seq<Op>, user: NewUser)
    requires Valid(t) && user.username in t.users
    requires InsertUser(Run(DeleteUser(t, user.username).tables, between), user).result.Ok?
    ensures var old_, new_ := t, InsertUser(Run(DeleteUser(t, user.username).tables, between), user).tables;
            && NoDependents(new_, user.username)
            && new_.users[user.username].userId > old_.nextUserId
            && !IdInUse(new_, old_.users[user.username].userId)
            && forall key | key in new_.credentials :: new_.credentials[key].userId != new_.users[user.username].userId
  {
    var gone := DeleteUser(t, user.username).tables;
    DeleteUserKeepsValid(t, user.username);
    DeletedIdIsFree(t, user.username);
    hide DeleteUser, InsertUser, Valid;
    RunKeepsInvariant(gone, between);
    IdsAreNeverReused(gone, between, t.users[user.username].userId);
    InsertedUserIsClean(Run(gone, between), user);
  }

  /** A delete right after a create restores every table; only the counter moved. */
  lemma DeleteUndoesCreate(t: Tables, user: NewUser)
    requires Valid(t) && InsertUser(t, user).result.Ok?
    ensures DeleteUser(InsertUser(t, user).tables, user.username) == Reply(t.(nextUserId := t.nextUserId + 1), Ok(()))
  {
    var created := InsertUser(t, user).tables;
    InsertedUserIsClean(t, user);
    NothingToCascade(created, user.username);
    hide Valid, CascadeDeleteUser, NoDependents, EmailTaken, ExternalIdTaken;
    assert created.users - {user.username} == t.users;
  }

  lemma NothingToCascade(t: Tables, username: string)
    requires NoDependents(t, username)
    ensures CascadeDeleteUser(t, username) == t
  {
    var after := CascadeDeleteUser(t, username);
    assert after.groupMembers == t.groupMembers;
    assert after.userPolicies == t.userPolicies;
    assert after.credentials == t.credentials;
    assert after.externalPrincipals == t.externalPrincipals;
  }
}
