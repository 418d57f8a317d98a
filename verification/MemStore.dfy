/** The in-memory store, updated in place. Every method is proved to do what the
    function of module `Tables` or `Bootstrap` with the same name does. */
module MemStores {
  import opened Wrappers
  import opened Types
  import T = Tables
  import B = Bootstrap

  /** The maps and sets behind the lock. */
  class Inner {
    var users: map<string, UserRecord>
    var nextUserId: nat
    var groups: map<string, GroupRecord>
    var policies: map<string, PolicyRecord>
    var groupMembers: set<(string, string)>
    var userPolicies: set<(string, string)>
    var groupPolicies: set<(string, string)>
    var credentials: map<string, CredentialRecord>
    var externalPrincipals: map<string, ExternalPrincipalRecord>
    var claimedTokenIds: map<string, int>

    function View(): T.Tables
      reads this
    {
      T.Tables(users, nextUserId, groups, policies, groupMembers, userPolicies, groupPolicies,
               credentials, externalPrincipals, claimedTokenIds)
    }

    constructor ()
      ensures View() == T.EMPTY
    {
      users, nextUserId, groups, policies := map[], 0, map[], map[];
      groupMembers, userPolicies, groupPolicies := {}, {}, {};
      credentials, externalPrincipals, claimedTokenIds := map[], map[], map[];
    }

    /** `clone`, for the staged copy of a bootstrap run. */
    constructor Clone(other: Inner)
      ensures View() == other.View()
    {
      users, nextUserId, groups, policies := other.users, other.nextUserId, other.groups, other.policies;
      groupMembers, userPolicies, groupPolicies := other.groupMembers, other.userPolicies, other.groupPolicies;
      credentials, externalPrincipals := other.credentials, other.externalPrincipals;
      claimedTokenIds := other.claimedTokenIds;
    }

    method InsertUser(user: NewUser) returns (r: Result<UserRecord, StoreError>)
      modifies this
      ensures T.Reply(View(), r) == T.InsertUser(old(View()), user)
      ensures old(T.Valid(View())) ==> T.Valid(View())
    {
      hide T.Valid, T.EmailTaken, T.ExternalIdTaken;
      if T.Valid(View()) {
        T.InsertUserKeepsValid(View(), user);
      }
      if user.username in users {
        return Err(AlreadyExists("user", user.username));
      }
      if user.email.Some? && T.EmailTaken(users, user.email.value) {
        return Err(AlreadyExists("user with email", user.email.value));
      }
      if user.externalId.Some? && T.ExternalIdTaken(users, user.externalId.value) {
        return Err(AlreadyExists("user with external id", user.externalId.value));
      }
      nextUserId := nextUserId + 1;
      var record := UserRecord(
        user.username, nextUserId, user.creationDate, user.friendlyName, user.email, user.source,
        user.externalId, user.encryptedPassword);
      users := users[user.username := record];
      return Ok(record);
    }

    method InsertGroup(group: GroupRecord) returns (r: Result<GroupRecord, StoreError>)
      modifies this`groups
      ensures T.Reply(View(), r) == T.InsertGroup(old(View()), group)
    {
      if group.id in groups {
        return Err(AlreadyExists("group", group.id));
      }
      groups := groups[group.id := group];
      return Ok(group);
    }

    method InsertPolicy(policy: PolicyRecord) returns (r: Result<PolicyRecord, StoreError>)
      modifies this`policies
      ensures T.Reply(View(), r) == T.InsertPolicy(old(View()), policy)
    {
      if policy.name in policies {
        return Err(AlreadyExists("policy", policy.name));
      }
      policies := policies[policy.name := policy];
      return Ok(policy);
    }

    method InsertCredential(credential: NewCredential) returns (r: Result<CredentialRecord, StoreError>)
      modifies this`credentials
      ensures T.Reply(View(), r) == T.InsertCredential(old(View()), credential)
    {
      if credential.username !in users {
        return Err(NotFound("user", credential.username));
      }
      var userId := users[credential.username].userId;
      if credential.accessKeyId in credentials {
        return Err(AlreadyExists("credentials", credential.accessKeyId));
      }
      var record := CredentialRecord(
        credential.accessKeyId, credential.username, userId, credential.secretCiphertext, credential.creationDate);
      credentials := credentials[credential.accessKeyId := record];
      return Ok(record);
    }

    method CascadeDeleteUser(username: string)
      modifies this`groupMembers, this`userPolicies, this`credentials, this`externalPrincipals
      ensures View() == T.CascadeDeleteUser(old(View()), username)
    {
      groupMembers := set row | row in groupMembers && row.1 != username;
      userPolicies := set row | row in userPolicies && row.0 != username;
      credentials := map key | key in credentials && credentials[key].username != username :: credentials[key];
      externalPrincipals := map key | key in externalPrincipals && externalPrincipals[key].username != username ::
        externalPrincipals[key];
    }

    method CascadeDeleteGroup(group: string)
      modifies this`groupMembers, this`groupPolicies
      ensures groupMembers == set row | row in old(groupMembers) && row.0 != group
      ensures groupPolicies == set row | row in old(groupPolicies) && row.0 != group
    {
      groupMembers := set row | row in groupMembers && row.0 != group;
      groupPolicies := set row | row in groupPolicies && row.0 != group;
    }

    method CascadeDeletePolicy(name: string)
      modifies this`userPolicies, this`groupPolicies
      ensures userPolicies == set row | row in old(userPolicies) && row.1 != name
      ensures groupPolicies == set row | row in old(groupPolicies) && row.1 != name
    {
      userPolicies := set row | row in userPolicies && row.1 != name;
      groupPolicies := set row | row in groupPolicies && row.1 != name;
    }

    // The inserts of a bootstrap run.

    method InsertPolicyIfMissing(policy: PolicyRecord) returns (r: Result<bool, StoreError>)
      modifies this
      ensures T.Reply(View(), r) == B.Write(old(View()), B.PolicyEntry(policy))
    {
      if policy.name in policies {
        return Ok(false);
      }
      var _ := InsertPolicy(policy);
      return Ok(true);
    }

    method InsertGroupIfMissing(group: GroupRecord) returns (r: Result<bool, StoreError>)
      modifies this
      ensures T.Reply(View(), r) == B.Write(old(View()), B.GroupEntry(group))
    {
      if group.id in groups {
        return Ok(false);
      }
      var _ := InsertGroup(group);
      return Ok(true);
    }

    /** `None` stands for "created"; the caller compares a row that was there with its entry. */
    method InsertUserIfMissing(user: NewUser) returns (r: Result<Option<UserRecord>, StoreError>)
      modifies this
      ensures user.username in old(users) ==> View() == old(View()) && r == Ok(Some(old(users)[user.username]))
      ensures user.username !in old(users) ==>
                && View() == T.InsertUser(old(View()), user).tables
                && r == match T.InsertUser(old(View()), user).result { case Ok(_) => Ok(None) case Err(error) => Err(error) }
    {
      if user.username in users {
        return Ok(Some(users[user.username]));
      }
      var inserted := InsertUser(user);
      if inserted.Err? {
        return Err(inserted.error);
      }
      return Ok(None);
    }

    method InsertMembershipIfMissing(group: string, username: string) returns (r: Result<bool, StoreError>)
      modifies this
      ensures T.Reply(View(), r) == B.Write(old(View()), B.MembershipEntry((group, username)))
    {
      if group !in groups {
        return Err(NotFound("group", group));
      }
      if username !in users {
        return Err(NotFound("user", username));
      }
      var added := (group, username) !in groupMembers;
      groupMembers := groupMembers + {(group, username)};
      return Ok(added);
    }

    method InsertUserPolicyIfMissing(username: string, policy: string) returns (r: Result<bool, StoreError>)
      modifies this
      ensures T.Reply(View(), r) == B.Write(old(View()), B.UserPolicyEntry((username, policy)))
    {
      if username !in users {
        return Err(NotFound("user", username));
      }
      if policy !in policies {
        return Err(NotFound("policy", policy));
      }
      var added := (username, policy) !in userPolicies;
      userPolicies := userPolicies + {(username, policy)};
      return Ok(added);
    }

    method InsertGroupPolicyIfMissing(group: string, policy: string) returns (r: Result<bool, StoreError>)
      modifies this
      ensures T.Reply(View(), r) == B.Write(old(View()), B.GroupPolicyEntry((group, policy)))
    {
      if group !in groups {
        return Err(NotFound("group", group));
      }
      if policy !in policies {
        return Err(NotFound("policy", policy));
      }
      var added := (group, policy) !in groupPolicies;
      groupPolicies := groupPolicies + {(group, policy)};
      return Ok(added);
    }

    method InsertCredentialIfMissing(credential: NewCredential) returns (r: Result<Option<CredentialRecord>, StoreError>)
      modifies this
      ensures credential.accessKeyId in old(credentials) ==>
                View() == old(View()) && r == Ok(Some(old(credentials)[credential.accessKeyId]))
      ensures credential.accessKeyId !in old(credentials) ==>
                && View() == T.InsertCredential(old(View()), credential).tables
                && r == match T.InsertCredential(old(View()), credential).result {
                          case Ok(_) => Ok(None) case Err(error) => Err(error) }
    {
      if credential.accessKeyId in credentials {
        return Ok(Some(credentials[credential.accessKeyId]));
      }
      var inserted := InsertCredential(credential);
      if inserted.Err? {
        return Err(inserted.error);
      }
      return Ok(None);
    }
  }

  /** Where a writer and its counters are, or where they stopped. */
  ghost function At(tables: T.Tables, r: Result<B.Report, StoreError>): B.Progress
  {
    match r
    case Ok(report) => B.Running(tables, report)
    case Err(error) => B.Stopped(tables, error)
  }

  /** `after` is what `entries` make of `before`, whatever the plan holds behind them. */
  ghost predicate RanThrough(before: B.Progress, entries: seq<B.Entry>, tail: seq<B.Entry>, after: B.Progress)
  {
    B.ApplyAll(before, entries + tail) == B.ApplyAll(after, tail)
  }

  method ApplyPolicies(writer: Inner, policies: seq<PolicyRecord>, before: B.Report, ghost tail: seq<B.Entry>)
    returns (r: Result<B.Report, StoreError>)
    modifies writer
    ensures RanThrough(B.Running(old(writer.View()), before), B.PolicyEntries(policies), tail, At(writer.View(), r))
  {
    hide B.Write, B.ApplyAll, T.InsertUser, T.InsertCredential;
    var report := before;
    ghost var goal := B.ApplyAll(B.Running(writer.View(), before), B.PolicyEntries(policies) + tail);
    assert policies[0..] == policies;
    for i := 0 to |policies|
      invariant B.ApplyAll(B.Running(writer.View(), report), B.PolicyEntries(policies[i..]) + tail) == goal
    {
      var policy := policies[i];
      ghost var rest := B.PolicyEntries(policies[i + 1..]) + tail;
      B.FirstEntry(B.Running(writer.View(), report), B.PolicyEntries(policies[i..]) + tail, B.PolicyEntry(policy), rest);
      var done := writer.InsertPolicyIfMissing(policy);
      if done.Err? {
        B.StoppedStays(B.Stopped(writer.View(), done.error), tail);
        return Err(done.error);
      }
      report := report.Tally(B.Policies, done.value);
    }
    assert B.PolicyEntries(policies[|policies|..]) + tail == tail;
    return Ok(report);
  }

  method ApplyGroups(writer: Inner, groups: seq<GroupRecord>, before: B.Report, ghost tail: seq<B.Entry>)
    returns (r: Result<B.Report, StoreError>)
    modifies writer
    ensures RanThrough(B.Running(old(writer.View()), before), B.GroupEntries(groups), tail, At(writer.View(), r))
  {
    hide B.Write, B.ApplyAll, T.InsertUser, T.InsertCredential;
    var report := before;
    ghost var goal := B.ApplyAll(B.Running(writer.View(), before), B.GroupEntries(groups) + tail);
    assert groups[0..] == groups;
    for i := 0 to |groups|
      invariant B.ApplyAll(B.Running(writer.View(), report), B.GroupEntries(groups[i..]) + tail) == goal
    {
      var group := groups[i];
      ghost var rest := B.GroupEntries(groups[i + 1..]) + tail;
      B.FirstEntry(B.Running(writer.View(), report), B.GroupEntries(groups[i..]) + tail, B.GroupEntry(group), rest);
      var done := writer.InsertGroupIfMissing(group);
      if done.Err? {
        B.StoppedStays(B.Stopped(writer.View(), done.error), tail);
        return Err(done.error);
      }
      report := report.Tally(B.Groups, done.value);
    }
    assert B.GroupEntries(groups[|groups|..]) + tail == tail;
    return Ok(report);
  }

  method ApplyUsers(writer: Inner, users: seq<NewUser>, before: B.Report, ghost tail: seq<B.Entry>)
    returns (r: Result<B.Report, StoreError>)
    modifies writer
    ensures RanThrough(B.Running(old(writer.View()), before), B.UserEntries(users), tail, At(writer.View(), r))
  {
    hide B.Write, B.ApplyAll, T.InsertUser, T.InsertCredential;
    var report := before;
    ghost var goal := B.ApplyAll(B.Running(writer.View(), before), B.UserEntries(users) + tail);
    assert users[0..] == users;
    for i := 0 to |users|
      invariant B.ApplyAll(B.Running(writer.View(), report), B.UserEntries(users[i..]) + tail) == goal
    {
      var user := users[i];
      ghost var rest := B.UserEntries(users[i + 1..]) + tail;
      B.FirstEntry(B.Running(writer.View(), report), B.UserEntries(users[i..]) + tail, B.UserEntry(user), rest);
      UserVerdict(writer.View(), user);
      var existing := writer.InsertUserIfMissing(user);
      if existing.Err? {
        B.StoppedStays(B.Stopped(writer.View(), existing.error), tail);
        return Err(existing.error);
      }
      if existing.value.Some? && !user.SameIdentityAs(existing.value.value) {
        r := Err(WrongIdentity("user", user.username));
        B.StoppedStays(At(writer.View(), r), tail);
        return;
      }
      report := report.Tally(B.Users, existing.value.None?);
    }
    assert B.UserEntries(users[|users|..]) + tail == tail;
    return Ok(report);
  }

  method ApplyMemberships(writer: Inner, rows: seq<(string, string)>, before: B.Report, ghost tail: seq<B.Entry>)
    returns (r: Result<B.Report, StoreError>)
    modifies writer
    ensures RanThrough(B.Running(old(writer.View()), before), B.MembershipEntries(rows), tail, At(writer.View(), r))
  {
    hide B.Write, B.ApplyAll, T.InsertUser, T.InsertCredential;
    var report := before;
    ghost var goal := B.ApplyAll(B.Running(writer.View(), before), B.MembershipEntries(rows) + tail);
    assert rows[0..] == rows;
    for i := 0 to |rows|
      invariant B.ApplyAll(B.Running(writer.View(), report), B.MembershipEntries(rows[i..]) + tail) == goal
    {
      var row := rows[i];
      ghost var rest := B.MembershipEntries(rows[i + 1..]) + tail;
      B.FirstEntry(B.Running(writer.View(), report), B.MembershipEntries(rows[i..]) + tail, B.MembershipEntry(row), rest);
      var done := writer.InsertMembershipIfMissing(row.0, row.1);
      if done.Err? {
        B.StoppedStays(B.Stopped(writer.View(), done.error), tail);
        return Err(done.error);
      }
      report := report.Tally(B.Memberships, done.value);
    }
    assert B.MembershipEntries(rows[|rows|..]) + tail == tail;
    return Ok(report);
  }

  method ApplyUserPolicies(writer: Inner, rows: seq<(string, string)>, before: B.Report, ghost tail: seq<B.Entry>)
    returns (r: Result<B.Report, StoreError>)
    modifies writer
    ensures RanThrough(B.Running(old(writer.View()), before), B.UserPolicyEntries(rows), tail, At(writer.View(), r))
  {
    hide B.Write, B.ApplyAll, T.InsertUser, T.InsertCredential;
    var report := before;
    ghost var goal := B.ApplyAll(B.Running(writer.View(), before), B.UserPolicyEntries(rows) + tail);
    assert rows[0..] == rows;
    for i := 0 to |rows|
      invariant B.ApplyAll(B.Running(writer.View(), report), B.UserPolicyEntries(rows[i..]) + tail) == goal
    {
      var row := rows[i];
      ghost var rest := B.UserPolicyEntries(rows[i + 1..]) + tail;
      B.FirstEntry(B.Running(writer.View(), report), B.UserPolicyEntries(rows[i..]) + tail, B.UserPolicyEntry(row), rest);
      var done := writer.InsertUserPolicyIfMissing(row.0, row.1);
      if done.Err? {
        B.StoppedStays(B.Stopped(writer.View(), done.error), tail);
        return Err(done.error);
      }
      report := report.Tally(B.Attachments, done.value);
    }
    assert B.UserPolicyEntries(rows[|rows|..]) + tail == tail;
    return Ok(report);
  }

  method ApplyGroupPolicies(writer: Inner, rows: seq<(string, string)>, before: B.Report, ghost tail: seq<B.Entry>)
    returns (r: Result<B.Report, StoreError>)
    modifies writer
    ensures RanThrough(B.Running(old(writer.View()), before), B.GroupPolicyEntries(rows), tail, At(writer.View(), r))
  {
    hide B.Write, B.ApplyAll, T.InsertUser, T.InsertCredential;
    var report := before;
    ghost var goal := B.ApplyAll(B.Running(writer.View(), before), B.GroupPolicyEntries(rows) + tail);
    assert rows[0..] == rows;
    for i := 0 to |rows|
      invariant B.ApplyAll(B.Running(writer.View(), report), B.GroupPolicyEntries(rows[i..]) + tail) == goal
    {
      var row := rows[i];
      ghost var rest := B.GroupPolicyEntries(rows[i + 1..]) + tail;
      B.FirstEntry(B.Running(writer.View(), report), B.GroupPolicyEntries(rows[i..]) + tail, B.GroupPolicyEntry(row), rest);
      var done := writer.InsertGroupPolicyIfMissing(row.0, row.1);
      if done.Err? {
        B.StoppedStays(B.Stopped(writer.View(), done.error), tail);
        return Err(done.error);
      }
      report := report.Tally(B.Attachments, done.value);
    }
    assert B.GroupPolicyEntries(rows[|rows|..]) + tail == tail;
    return Ok(report);
  }

  method ApplyCredentials(writer: Inner, credentials: seq<NewCredential>, before: B.Report, ghost tail: seq<B.Entry>)
    returns (r: Result<B.Report, StoreError>)
    modifies writer
    ensures RanThrough(B.Running(old(writer.View()), before), B.CredentialEntries(credentials), tail, At(writer.View(), r))
  {
    hide B.Write, B.ApplyAll, T.InsertUser, T.InsertCredential;
    var report := before;
    ghost var goal := B.ApplyAll(B.Running(writer.View(), before), B.CredentialEntries(credentials) + tail);
    assert credentials[0..] == credentials;
    for i := 0 to |credentials|
      invariant B.ApplyAll(B.Running(writer.View(), report), B.CredentialEntries(credentials[i..]) + tail) == goal
    {
      var credential := credentials[i];
      ghost var rest := B.CredentialEntries(credentials[i + 1..]) + tail;
      B.FirstEntry(B.Running(writer.View(), report), B.CredentialEntries(credentials[i..]) + tail, B.CredentialEntry(credential), rest);
      CredentialVerdict(writer.View(), credential);
      var existing := writer.InsertCredentialIfMissing(credential);
      if existing.Err? {
        B.StoppedStays(B.Stopped(writer.View(), existing.error), tail);
        return Err(existing.error);
      }
      if existing.value.Some? && existing.value.value.username != credential.username {
        r := Err(WrongIdentity("credentials", credential.accessKeyId));
        B.StoppedStays(At(writer.View(), r), tail);
        return;
      }
      report := report.Tally(B.Credentials, existing.value.None?);
    }
    assert B.CredentialEntries(credentials[|credentials|..]) + tail == tail;
    return Ok(report);
  }

  /** `apply_plan`: the tables and the answer are those of running the entries in
      order; a run that stops leaves what came before. */
  method ApplyPlan(writer: Inner, plan: B.BootstrapPlan) returns (r: Result<B.Report, StoreError>)
    modifies writer
    ensures At(writer.View(), r) == B.ApplyAll(B.Running(old(writer.View()), B.NOTHING), B.Entries(plan))
  {
    hide B.Write, B.ApplyAll;
    ghost var credentials := B.CredentialEntries(plan.credentials);
    ghost var groupPolicies := B.GroupPolicyEntries(plan.groupPolicies) + credentials;
    ghost var userPolicies := B.UserPolicyEntries(plan.userPolicies) + groupPolicies;
    ghost var memberships := B.MembershipEntries(plan.memberships) + userPolicies;
    ghost var users := B.UserEntries(plan.users) + memberships;
    ghost var groups := B.GroupEntries(plan.groups) + users;
    r := ApplyPolicies(writer, plan.policies, B.NOTHING, groups);
    if r.Err? {
      B.StoppedStays(At(writer.View(), r), groups);
      return;
    }
    r := ApplyGroups(writer, plan.groups, r.value, users);
    if r.Err? {
      B.StoppedStays(At(writer.View(), r), users);
      return;
    }
    r := ApplyUsers(writer, plan.users, r.value, memberships);
    if r.Err? {
      B.StoppedStays(At(writer.View(), r), memberships);
      return;
    }
    r := ApplyMemberships(writer, plan.memberships, r.value, userPolicies);
    if r.Err? {
      B.StoppedStays(At(writer.View(), r), userPolicies);
      return;
    }
    r := ApplyUserPolicies(writer, plan.userPolicies, r.value, groupPolicies);
    if r.Err? {
      B.StoppedStays(At(writer.View(), r), groupPolicies);
      return;
    }
    r := ApplyGroupPolicies(writer, plan.groupPolicies, r.value, credentials);
    if r.Err? {
      B.StoppedStays(At(writer.View(), r), credentials);
      return;
    }
    r := ApplyCredentials(writer, plan.credentials, r.value, []);
    assert credentials + [] == credentials;
    FinishedRun(At(writer.View(), r), []);
  }

  lemma FinishedRun(progress: B.Progress, entries: seq<B.Entry>)
    requires entries == []
    ensures B.ApplyAll(progress, entries) == progress
  {
  }

  lemma UserVerdict(t: T.Tables, user: NewUser)
    ensures user.username in t.users && user.SameIdentityAs(t.users[user.username]) ==>
              B.Write(t, B.UserEntry(user)) == T.Reply(t, Ok(false))
    ensures user.username in t.users && !user.SameIdentityAs(t.users[user.username]) ==>
              B.Write(t, B.UserEntry(user)) == T.Reply(t, Err(WrongIdentity("user", user.username)))
    ensures user.username !in t.users ==> B.Write(t, B.UserEntry(user)) == B.Created(T.InsertUser(t, user))
  {
  }

  lemma CredentialVerdict(t: T.Tables, credential: NewCredential)
    ensures credential.accessKeyId in t.credentials && t.credentials[credential.accessKeyId].username == credential.username ==>
              B.Write(t, B.CredentialEntry(credential)) == T.Reply(t, Ok(false))
    ensures credential.accessKeyId in t.credentials && t.credentials[credential.accessKeyId].username != credential.username ==>
              B.Write(t, B.CredentialEntry(credential)) ==
              T.Reply(t, Err(WrongIdentity("credentials", credential.accessKeyId)))
    ensures credential.accessKeyId !in t.credentials ==>
              B.Write(t, B.CredentialEntry(credential)) == B.Created(T.InsertCredential(t, credential))
  {
  }

  /** The store behind its lock: each method is one critical section. */
  class MemStore {
    var inner: Inner

    function View(): T.Tables
      reads this, inner
    {
      inner.View()
    }

    constructor ()
      ensures View() == T.EMPTY && fresh(inner)
    {
      inner := new Inner();
    }

    method CreateUser(user: NewUser) returns (r: Result<UserRecord, StoreError>)
      modifies inner
      ensures T.Reply(View(), r) == T.InsertUser(old(View()), user)
    {
      r := inner.InsertUser(user);
    }

    /** The user with this email, if there is one. */
    method FindUserByEmail(email: string) returns (r: Option<UserRecord>)
      ensures r.None? <==> !T.EmailTaken(inner.users, email)
      ensures r.Some? ==> exists name | name in inner.users :: inner.users[name] == r.value && r.value.email == Some(email)
    {
      if name :| name in inner.users && inner.users[name].email == Some(email) {
        return Some(inner.users[name]);
      }
      return None;
    }

    /** The user with this external id, if there is one. */
    method FindUserByExternalId(externalId: string) returns (r: Option<UserRecord>)
      ensures r.None? <==> !T.ExternalIdTaken(inner.users, externalId)
      ensures r.Some? ==>
                exists name | name in inner.users :: inner.users[name] == r.value && r.value.externalId == Some(externalId)
    {
      if name :| name in inner.users && inner.users[name].externalId == Some(externalId) {
        return Some(inner.users[name]);
      }
      return None;
    }

    method DeleteUser(username: string) returns (r: Result<(), StoreError>)
      modifies inner
      ensures T.Reply(View(), r) == T.DeleteUser(old(View()), username)
    {
      if username !in inner.users {
        return Err(NotFound("user", username));
      }
      inner.users := inner.users - {username};
      inner.CascadeDeleteUser(username);
      return Ok(());
    }

    method SetFriendlyName(username: string, friendlyName: string) returns (r: Result<(), StoreError>)
      modifies inner
      ensures T.Reply(View(), r) == T.SetFriendlyName(old(View()), username, friendlyName)
    {
      if username !in inner.users {
        return Err(NotFound("user", username));
      }
      inner.users := inner.users[username := inner.users[username].(friendlyName := Some(friendlyName))];
      return Ok(());
    }

    method CreateGroup(group: GroupRecord) returns (r: Result<GroupRecord, StoreError>)
      modifies inner
      ensures T.Reply(View(), r) == T.InsertGroup(old(View()), group)
    {
      r := inner.InsertGroup(group);
    }

    method DeleteGroup(group: string) returns (r: Result<(), StoreError>)
      modifies inner
      ensures T.Reply(View(), r) == T.DeleteGroup(old(View()), group)
    {
      if group !in inner.groups {
        return Err(NotFound("group", group));
      }
      inner.groups := inner.groups - {group};
      inner.CascadeDeleteGroup(group);
      return Ok(());
    }

    method CreatePolicy(policy: PolicyRecord) returns (r: Result<PolicyRecord, StoreError>)
      modifies inner
      ensures T.Reply(View(), r) == T.InsertPolicy(old(View()), policy)
    {
      r := inner.InsertPolicy(policy);
    }

    method UpdatePolicy(policy: PolicyRecord) returns (r: Result<PolicyRecord, StoreError>)
      modifies inner
      ensures T.Reply(View(), r) == T.UpdatePolicy(old(View()), policy)
    {
      if policy.name !in inner.policies {
        return Err(NotFound("policy", policy.name));
      }
      var slot := inner.policies[policy.name];
      slot := slot.(creationDate := policy.creationDate);
      slot := slot.(statement := policy.statement);
      slot := slot.(acl := policy.acl);
      inner.policies := inner.policies[policy.name := slot];
      return Ok(slot);
    }

    method DeletePolicy(name: string) returns (r: Result<(), StoreError>)
      modifies inner
      ensures T.Reply(View(), r) == T.DeletePolicy(old(View()), name)
    {
      if name !in inner.policies {
        return Err(NotFound("policy", name));
      }
      inner.policies := inner.policies - {name};
      inner.CascadeDeletePolicy(name);
      return Ok(());
    }

    method AddMembership(group: string, username: string) returns (r: Result<(), StoreError>)
      modifies inner
      ensures T.Reply(View(), r) == T.AddMembership(old(View()), group, username)
    {
      if group !in inner.groups {
        return Err(NotFound("group", group));
      }
      if username !in inner.users {
        return Err(NotFound("user", username));
      }
      inner.groupMembers := inner.groupMembers + {(group, username)};
      return Ok(());
    }

    method RemoveMembership(group: string, username: string) returns (r: Result<(), StoreError>)
      modifies inner
      ensures T.Reply(View(), r) == T.RemoveMembership(old(View()), group, username)
    {
      if (group, username) !in inner.groupMembers {
        return Err(NotFound("group membership", username));
      }
      inner.groupMembers := inner.groupMembers - {(group, username)};
      return Ok(());
    }

    method AttachPolicyToUser(username: string, policy: string) returns (r: Result<(), StoreError>)
      modifies inner
      ensures T.Reply(View(), r) == T.AttachToUser(old(View()), username, policy)
    {
      if username !in inner.users {
        return Err(NotFound("user", username));
      }
      if policy !in inner.policies {
        return Err(NotFound("policy", policy));
      }
      inner.userPolicies := inner.userPolicies + {(username, policy)};
      return Ok(());
    }

    method DetachPolicyFromUser(username: string, policy: string) returns (r: Result<(), StoreError>)
      modifies inner
      ensures T.Reply(View(), r) == T.DetachFromUser(old(View()), username, policy)
    {
      if (username, policy) !in inner.userPolicies {
        return Err(NotFound("policy attachment", policy));
      }
      inner.userPolicies := inner.userPolicies - {(username, policy)};
      return Ok(());
    }

    method AttachPolicyToGroup(group: string, policy: string) returns (r: Result<(), StoreError>)
      modifies inner
      ensures T.Reply(View(), r) == T.AttachToGroup(old(View()), group, policy)
    {
      if group !in inner.groups {
        return Err(NotFound("group", group));
      }
      if policy !in inner.policies {
        return Err(NotFound("policy", policy));
      }
      inner.groupPolicies := inner.groupPolicies + {(group, policy)};
      return Ok(());
    }

    method DetachPolicyFromGroup(group: string, policy: string) returns (r: Result<(), StoreError>)
      modifies inner
      ensures T.Reply(View(), r) == T.DetachFromGroup(old(View()), group, policy)
    {
      if (group, policy) !in inner.groupPolicies {
        return Err(NotFound("policy attachment", policy));
      }
      inner.groupPolicies := inner.groupPolicies - {(group, policy)};
      return Ok(());
    }

    method CreateCredential(credential: NewCredential) returns (r: Result<CredentialRecord, StoreError>)
      modifies inner
      ensures T.Reply(View(), r) == T.InsertCredential(old(View()), credential)
    {
      r := inner.InsertCredential(credential);
    }

    method DeleteCredential(username: string, accessKeyId: string) returns (r: Result<(), StoreError>)
      modifies inner
      ensures T.Reply(View(), r) == T.DeleteCredential(old(View()), username, accessKeyId)
    {
      var owned := accessKeyId in inner.credentials && inner.credentials[accessKeyId].username == username;
      if !owned {
        return Err(NotFound("credentials", accessKeyId));
      }
      inner.credentials := inner.credentials - {accessKeyId};
      return Ok(());
    }

    method CreateExternalPrincipal(username: string, id: string) returns (r: Result<(), StoreError>)
      modifies inner
      ensures T.Reply(View(), r) == T.InsertExternalPrincipal(old(View()), username, id)
    {
      if username !in inner.users {
        return Err(NotFound("user", username));
      }
      if id in inner.externalPrincipals {
        return Err(AlreadyExists("external principal", id));
      }
      inner.externalPrincipals := inner.externalPrincipals[id := ExternalPrincipalRecord(id, username)];
      return Ok(());
    }

    method DeleteExternalPrincipal(username: string, id: string) returns (r: Result<(), StoreError>)
      modifies inner
      ensures T.Reply(View(), r) == T.DeleteExternalPrincipal(old(View()), username, id)
    {
      var owned := id in inner.externalPrincipals && inner.externalPrincipals[id].username == username;
      if !owned {
        return Err(NotFound("external principal", id));
      }
      inner.externalPrincipals := inner.externalPrincipals - {id};
      return Ok(());
    }

    method ClaimTokenId(id: string, expiresAt: int) returns (r: Result<(), StoreError>)
      modifies inner
      ensures T.Reply(View(), r) == T.ClaimTokenId(old(View()), id, expiresAt)
    {
      if id in inner.claimedTokenIds {
        return Err(AlreadyExists("token id", id));
      }
      inner.claimedTokenIds := inner.claimedTokenIds[id := expiresAt];
      return Ok(());
    }

    method DeleteExpiredTokenIds(now: int) returns (r: Result<nat, StoreError>)
      modifies inner
      ensures T.Reply(View(), r) == T.DeleteExpiredTokenIds(old(View()), now)
    {
      var before := inner.claimedTokenIds;
      inner.claimedTokenIds := map id | id in before && before[id] > now :: before[id];
      T.KeptAreFewer(inner.claimedTokenIds.Keys, before.Keys);
      return Ok(|before| - |inner.claimedTokenIds|);
    }

    /** The staged copy is swapped in only when the whole plan went through, so a
        failed plan leaves the store as it was, down to the object behind the lock. */
    method ApplyBootstrap(plan: B.BootstrapPlan) returns (r: Result<B.Report, StoreError>)
      modifies this
      ensures T.Reply(View(), r) == B.Bootstrapped(old(View()), plan)
      ensures r.Err? ==> inner == old(inner) && View() == old(View())
      ensures r.Ok? ==> fresh(inner) && B.Extends(old(View()), View())
      ensures old(T.Valid(View())) ==> T.Valid(View())
    {
      var staged := new Inner.Clone(inner);
      r := ApplyPlan(staged, plan);
      if r.Err? {
        return;
      }
      B.BootstrapIsAdditive(View(), plan);
      inner := staged;
    }
  }
}
