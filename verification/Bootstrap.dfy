/** The bootstrap run: what a plan does to the tables, entry by entry. */
module Bootstrap {
  import opened Wrappers
  import opened Types
  import opened Tables

  datatype BootstrapPlan = BootstrapPlan(
    policies: seq<PolicyRecord>,
    groups: seq<GroupRecord>,
    users: seq<NewUser>,
    memberships: seq<(string, string)>,
    userPolicies: seq<(string, string)>,
    groupPolicies: seq<(string, string)>,
    credentials: seq<NewCredential>)

  datatype Kind = Policies | Groups | Users | Memberships | Attachments | Credentials

  datatype Counts = Counts(
    policies: nat, groups: nat, users: nat, memberships: nat, attachments: nat, credentials: nat)
  {
    function Of(kind: Kind): nat {
      match kind
      case Policies => policies
      case Groups => groups
      case Users => users
      case Memberships => memberships
      case Attachments => attachments
      case Credentials => credentials
    }

    function Bump(kind: Kind): (counts: Counts)
      ensures forall other :: counts.Of(other) == Of(other) + if other == kind then 1 else 0
    {
      match kind
      case Policies => this.(policies := policies + 1)
      case Groups => this.(groups := groups + 1)
      case Users => this.(users := users + 1)
      case Memberships => this.(memberships := memberships + 1)
      case Attachments => this.(attachments := attachments + 1)
      case Credentials => this.(credentials := credentials + 1)
    }
  }

  datatype Report = Report(created: Counts, skipped: Counts) {
    function Tally(kind: Kind, wasCreated: bool): Report {
      if wasCreated then Report(created.Bump(kind), skipped) else Report(created, skipped.Bump(kind))
    }
  }

  const NONE := Counts(0, 0, 0, 0, 0, 0)
  const NOTHING := Report(NONE, NONE)

  /** One line of the plan. */
  datatype Entry =
    | PolicyEntry(policy: PolicyRecord)
    | GroupEntry(group: GroupRecord)
    | UserEntry(user: NewUser)
    | MembershipEntry(row: (string, string))
    | UserPolicyEntry(row: (string, string))
    | GroupPolicyEntry(row: (string, string))
    | CredentialEntry(credential: NewCredential)
  {
    function Kind(): Kind {
      match this
      case PolicyEntry(_) => Policies
      case GroupEntry(_) => Groups
      case UserEntry(_) => Users
      case MembershipEntry(_) => Memberships
      case UserPolicyEntry(_) => Attachments
      case GroupPolicyEntry(_) => Attachments
      case CredentialEntry(_) => Credentials
    }
  }

  // ---------------------------------------------------------------------
  // One entry
  // ---------------------------------------------------------------------

  function Created<T>(reply: Reply<T>): Reply<bool>
  {
    match reply.result
    case Ok(_) => Reply(reply.tables, Ok(true))
    case Err(error) => Reply(reply.tables, Err(error))
  }

  /** Creates the row of an entry when it is missing; `Ok(true)` when it did. An
      existing user must be the same identity, existing credentials must belong to
      the same user. */
  function Write(t: Tables, entry: Entry): Reply<bool>
  {
    match entry
    case PolicyEntry(policy) =>
      if policy.name in t.policies then Reply(t, Ok(false)) else Created(InsertPolicy(t, policy))
    case GroupEntry(group) =>
      if group.id in t.groups then Reply(t, Ok(false)) else Created(InsertGroup(t, group))
    case UserEntry(user) =>
      if user.username in t.users then
        if user.SameIdentityAs(t.users[user.username]) then Reply(t, Ok(false))
        else Reply(t, Err(WrongIdentity("user", user.username)))
      else Created(InsertUser(t, user))
    case MembershipEntry(row) =>
      var reply := AddMembership(t, row.0, row.1);
      if reply.result.Ok? then Reply(reply.tables, Ok(row !in t.groupMembers)) else Created(reply)
    case UserPolicyEntry(row) =>
      var reply := AttachToUser(t, row.0, row.1);
      if reply.result.Ok? then Reply(reply.tables, Ok(row !in t.userPolicies)) else Created(reply)
    case GroupPolicyEntry(row) =>
      var reply := AttachToGroup(t, row.0, row.1);
      if reply.result.Ok? then Reply(reply.tables, Ok(row !in t.groupPolicies)) else Created(reply)
    case CredentialEntry(credential) =>
      if credential.accessKeyId in t.credentials then
        if t.credentials[credential.accessKeyId].username == credential.username then Reply(t, Ok(false))
        else Reply(t, Err(WrongIdentity("credentials", credential.accessKeyId)))
      else Created(InsertCredential(t, credential))
  }

  /** What an entry asks for. */
  predicate Satisfied(t: Tables, entry: Entry)
  {
    match entry
    case PolicyEntry(policy) => policy.name in t.policies
    case GroupEntry(group) => group.id in t.groups
    case UserEntry(user) => user.username in t.users && user.SameIdentityAs(t.users[user.username])
    case MembershipEntry(row) => row in t.groupMembers && row.0 in t.groups && row.1 in t.users
    case UserPolicyEntry(row) => row in t.userPolicies && row.0 in t.users && row.1 in t.policies
    case GroupPolicyEntry(row) => row in t.groupPolicies && row.0 in t.groups && row.1 in t.policies
    case CredentialEntry(credential) =>
      && credential.accessKeyId in t.credentials
      && t.credentials[credential.accessKeyId].username == credential.username
  }

  /** Every old row is still there, unchanged. */
  ghost predicate Keeps<T>(old_: map<string, T>, new_: map<string, T>)
  {
    forall key | key in old_ :: key in new_ && new_[key] == old_[key]
  }

  ghost predicate Extends(t: Tables, t': Tables)
  {
    && Keeps(t.users, t'.users) && Keeps(t.groups, t'.groups) && Keeps(t.policies, t'.policies)
    && Keeps(t.credentials, t'.credentials)
    && t.groupMembers <= t'.groupMembers && t.userPolicies <= t'.userPolicies && t.groupPolicies <= t'.groupPolicies
    && t.externalPrincipals == t'.externalPrincipals && t.claimedTokenIds == t'.claimedTokenIds
    && t.nextUserId <= t'.nextUserId
  }

  /** Every new row is one that an entry describes. */
  ghost predicate Described(t: Tables, t': Tables, entries: set<Entry>)
  {
    && (forall name | name in t'.policies && name !in t.policies :: PolicyEntry(t'.policies[name]) in entries)
    && (forall id | id in t'.groups && id !in t.groups :: GroupEntry(t'.groups[id]) in entries)
    && (forall name | name in t'.users && name !in t.users ::
          exists user: NewUser :: UserEntry(user) in entries && t'.users[name] == user.WithId(t'.users[name].userId))
    && (forall row | row in t'.groupMembers && row !in t.groupMembers :: MembershipEntry(row) in entries)
    && (forall row | row in t'.userPolicies && row !in t.userPolicies :: UserPolicyEntry(row) in entries)
    && (forall row | row in t'.groupPolicies && row !in t.groupPolicies :: GroupPolicyEntry(row) in entries)
    && (forall key | key in t'.credentials && key !in t.credentials :: Sealed(t'.credentials[key], entries))
  }

  ghost predicate Sealed(record: CredentialRecord, entries: set<Entry>)
  {
    CredentialEntry(
      NewCredential(record.accessKeyId, record.username, record.secretCiphertext, record.creationDate)) in entries
  }

  /** Rows of a kind; attachments fill two tables. */
  function Size(t: Tables, kind: Kind): nat
  {
    match kind
    case Policies => |t.policies|
    case Groups => |t.groups|
    case Users => |t.users|
    case Memberships => |t.groupMembers|
    case Attachments => |t.userPolicies| + |t.groupPolicies|
    case Credentials => |t.credentials|
  }

  /** What a write that did not fail means. */
  ghost predicate Sound(t: Tables, entry: Entry, reply: Reply<bool>)
  {
    && reply.result.Ok?
    && Extends(t, reply.tables)
    && Satisfied(reply.tables, entry)
    && (Valid(t) ==> Valid(reply.tables))
    && (reply.result == Ok(false) ==> reply.tables == t)
    && Described(t, reply.tables, {entry})
  }

  lemma PolicyWriteIsSound(t: Tables, policy: PolicyRecord)
    requires Write(t, PolicyEntry(policy)).result.Ok?
    ensures Sound(t, PolicyEntry(policy), Write(t, PolicyEntry(policy)))
  {
    hide KeyedUsers, UniqueIds, UniqueEmails, UniqueExternalIds;
  }

  lemma GroupWriteIsSound(t: Tables, group: GroupRecord)
    requires Write(t, GroupEntry(group)).result.Ok?
    ensures Sound(t, GroupEntry(group), Write(t, GroupEntry(group)))
  {
    hide KeyedUsers, UniqueIds, UniqueEmails, UniqueExternalIds;
  }

  lemma UserWriteIsSound(t: Tables, user: NewUser)
    requires Write(t, UserEntry(user)).result.Ok?
    ensures Sound(t, UserEntry(user), Write(t, UserEntry(user)))
  {
    hide Valid, EmailTaken, ExternalIdTaken;
    if Valid(t) {
      InsertUserKeepsValid(t, user);
    }
  }

  lemma MembershipWriteIsSound(t: Tables, row: (string, string))
    requires Write(t, MembershipEntry(row)).result.Ok?
    ensures Sound(t, MembershipEntry(row), Write(t, MembershipEntry(row)))
  {
    hide KeyedUsers, UniqueIds, UniqueEmails, UniqueExternalIds;
    assert row in t.groupMembers ==> t.groupMembers + {row} == t.groupMembers;
  }

  lemma UserPolicyWriteIsSound(t: Tables, row: (string, string))
    requires Write(t, UserPolicyEntry(row)).result.Ok?
    ensures Sound(t, UserPolicyEntry(row), Write(t, UserPolicyEntry(row)))
  {
    hide KeyedUsers, UniqueIds, UniqueEmails, UniqueExternalIds;
    assert row in t.userPolicies ==> t.userPolicies + {row} == t.userPolicies;
  }

  lemma GroupPolicyWriteIsSound(t: Tables, row: (string, string))
    requires Write(t, GroupPolicyEntry(row)).result.Ok?
    ensures Sound(t, GroupPolicyEntry(row), Write(t, GroupPolicyEntry(row)))
  {
    hide KeyedUsers, UniqueIds, UniqueEmails, UniqueExternalIds;
    assert row in t.groupPolicies ==> t.groupPolicies + {row} == t.groupPolicies;
  }

  lemma CredentialWriteIsSound(t: Tables, credential: NewCredential)
    requires Write(t, CredentialEntry(credential)).result.Ok?
    ensures Sound(t, CredentialEntry(credential), Write(t, CredentialEntry(credential)))
  {
    hide KeyedUsers, UniqueIds, UniqueEmails, UniqueExternalIds;
  }

  lemma WriteIsSound(t: Tables, entry: Entry)
    requires Write(t, entry).result.Ok?
    ensures Sound(t, entry, Write(t, entry))
  {
    hide Sound, Write;
    match entry {
      case PolicyEntry(policy) => PolicyWriteIsSound(t, policy);
      case GroupEntry(group) => GroupWriteIsSound(t, group);
      case UserEntry(user) => UserWriteIsSound(t, user);
      case MembershipEntry(row) => MembershipWriteIsSound(t, row);
      case UserPolicyEntry(row) => UserPolicyWriteIsSound(t, row);
      case GroupPolicyEntry(row) => GroupPolicyWriteIsSound(t, row);
      case CredentialEntry(credential) => CredentialWriteIsSound(t, credential);
    }
  }

  /** A link that is not there yet adds one row to its table. */
  lemma LinkGrowth(t: Tables, entry: Entry, kind: Kind)
    requires Write(t, entry).result.Ok? && Write(t, entry).result.value
    requires entry.MembershipEntry? || entry.UserPolicyEntry? || entry.GroupPolicyEntry?
    ensures Size(Write(t, entry).tables, kind) == Size(t, kind) + if kind == entry.Kind() then 1 else 0
  {
    match entry {
      case MembershipEntry(row) => assert |t.groupMembers + {row}| == |t.groupMembers| + 1;
      case UserPolicyEntry(row) => assert |t.userPolicies + {row}| == |t.userPolicies| + 1;
      case GroupPolicyEntry(row) => assert |t.groupPolicies + {row}| == |t.groupPolicies| + 1;
    }
  }

  /** A new key adds one row to its table. */
  lemma RowGrowth(t: Tables, entry: Entry, kind: Kind)
    requires Write(t, entry).result.Ok? && Write(t, entry).result.value
    requires entry.PolicyEntry? || entry.GroupEntry? || entry.UserEntry? || entry.CredentialEntry?
    ensures Size(Write(t, entry).tables, kind) == Size(t, kind) + if kind == entry.Kind() then 1 else 0
  {
    hide EmailTaken, ExternalIdTaken;
    var t' := Write(t, entry).tables;
    match entry {
      case PolicyEntry(policy) =>
        assert policy.name !in t.policies && t' == t.(policies := t.policies[policy.name := policy]);
      case GroupEntry(group) =>
        assert group.id !in t.groups && t' == t.(groups := t.groups[group.id := group]);
      case UserEntry(user) =>
        assert user.username !in t.users && t' == InsertUser(t, user).tables;
      case CredentialEntry(credential) =>
        assert credential.accessKeyId !in t.credentials && t' == InsertCredential(t, credential).tables;
    }
  }

  lemma WriteGrowth(t: Tables, entry: Entry, kind: Kind)
    requires Write(t, entry).result.Ok?
    ensures Size(Write(t, entry).tables, kind) ==
            Size(t, kind) + if Write(t, entry).result.value && kind == entry.Kind() then 1 else 0
  {
    if !Write(t, entry).result.value {
      hide Write, Extends, Valid, Described, Satisfied, Size;
      WriteIsSound(t, entry);
    } else if entry.MembershipEntry? || entry.UserPolicyEntry? || entry.GroupPolicyEntry? {
      hide Write, Size;
      LinkGrowth(t, entry, kind);
    } else {
      hide Write, Size;
      RowGrowth(t, entry, kind);
    }
  }

  lemma SatisfiedIsSkipped(t: Tables, entry: Entry)
    requires Satisfied(t, entry)
    ensures Write(t, entry) == Reply(t, Ok(false))
  {
    if entry.MembershipEntry? { assert t.groupMembers + {entry.row} == t.groupMembers; }
    if entry.UserPolicyEntry? { assert t.userPolicies + {entry.row} == t.userPolicies; }
    if entry.GroupPolicyEntry? { assert t.groupPolicies + {entry.row} == t.groupPolicies; }
  }

  // ---------------------------------------------------------------------
  // The whole plan
  // ---------------------------------------------------------------------

  datatype Progress = Running(tables: Tables, report: Report) | Stopped(tables: Tables, error: StoreError)

  function ApplyEntry(progress: Progress, entry: Entry): Progress
  {
    if progress.Stopped? then progress
    else
      var reply := Write(progress.tables, entry);
      match reply.result
      case Ok(wasCreated) => Running(reply.tables, progress.report.Tally(entry.Kind(), wasCreated))
      case Err(error) => Stopped(reply.tables, error)
  }

  function ApplyAll(progress: Progress, entries: seq<Entry>): Progress
    decreases entries
  {
    if entries == [] then progress else ApplyAll(ApplyEntry(progress, entries[0]), entries[1..])
  }

  lemma {:induction false} StoppedStays(progress: Progress, entries: seq<Entry>)
    requires progress.Stopped?
    ensures ApplyAll(progress, entries) == progress
  {
    if entries != [] {
      StoppedStays(progress, entries[1..]);
    }
  }

  /** A run takes its first entry, and ends there when that stops it. */
  lemma FirstEntry(progress: Progress, entries: seq<Entry>, head: Entry, rest: seq<Entry>)
    requires entries == [head] + rest
    ensures ApplyAll(progress, entries) == ApplyAll(ApplyEntry(progress, head), rest)
    ensures ApplyEntry(progress, head).Stopped? ==> ApplyAll(progress, entries) == ApplyEntry(progress, head)
  {
    assert entries[1..] == rest;
    if ApplyEntry(progress, head).Stopped? {
      StoppedStays(ApplyEntry(progress, head), rest);
    }
  }

  function PolicyEntries(policies: seq<PolicyRecord>): seq<Entry>
  {
    seq(|policies|, i requires 0 <= i < |policies| => PolicyEntry(policies[i]))
  }

  function GroupEntries(groups: seq<GroupRecord>): seq<Entry>
  {
    seq(|groups|, i requires 0 <= i < |groups| => GroupEntry(groups[i]))
  }

  function UserEntries(users: seq<NewUser>): seq<Entry>
  {
    seq(|users|, i requires 0 <= i < |users| => UserEntry(users[i]))
  }

  function MembershipEntries(rows: seq<(string, string)>): seq<Entry>
  {
    seq(|rows|, i requires 0 <= i < |rows| => MembershipEntry(rows[i]))
  }

  function UserPolicyEntries(rows: seq<(string, string)>): seq<Entry>
  {
    seq(|rows|, i requires 0 <= i < |rows| => UserPolicyEntry(rows[i]))
  }

  function GroupPolicyEntries(rows: seq<(string, string)>): seq<Entry>
  {
    seq(|rows|, i requires 0 <= i < |rows| => GroupPolicyEntry(rows[i]))
  }

  function CredentialEntries(credentials: seq<NewCredential>): seq<Entry>
  {
    seq(|credentials|, i requires 0 <= i < |credentials| => CredentialEntry(credentials[i]))
  }

  /** The order of the seven loops. */
  function Entries(plan: BootstrapPlan): seq<Entry>
  {
    PolicyEntries(plan.policies) + (GroupEntries(plan.groups) + (UserEntries(plan.users) + (
    MembershipEntries(plan.memberships) + (UserPolicyEntries(plan.userPolicies) + (
    GroupPolicyEntries(plan.groupPolicies) + CredentialEntries(plan.credentials))))))
  }

  /** The run as one transaction: a plan that stops leaves the tables as they were. */
  function Bootstrapped(t: Tables, plan: BootstrapPlan): Reply<Report>
  {
    match ApplyAll(Running(t, NOTHING), Entries(plan))
    case Running(tables, report) => Reply(tables, Ok(report))
    case Stopped(_, error) => Reply(t, Err(error))
  }

  function PlanCount(plan: BootstrapPlan, kind: Kind): nat
  {
    match kind
    case Policies => |plan.policies|
    case Groups => |plan.groups|
    case Users => |plan.users|
    case Memberships => |plan.memberships|
    case Attachments => |plan.userPolicies| + |plan.groupPolicies|
    case Credentials => |plan.credentials|
  }

  function CountOf(entries: seq<Entry>, kind: Kind): nat
  {
    if entries == [] then 0
    else (if entries[0].Kind() == kind then 1 else 0) + CountOf(entries[1..], kind)
  }

  lemma {:induction false} CountOfConcat(first: seq<Entry>, second: seq<Entry>, kind: Kind)
    ensures CountOf(first + second, kind) == CountOf(first, kind) + CountOf(second, kind)
  {
    if first == [] {
      assert first + second == second;
    } else {
      CountOfConcat(first[1..], second, kind);
      assert (first + second)[1..] == first[1..] + second;
    }
  }

  lemma {:induction false} CountOfUniform(entries: seq<Entry>, uniform: Kind, kind: Kind)
    requires forall entry :: entry in entries ==> entry.Kind() == uniform
    ensures CountOf(entries, kind) == if kind == uniform then |entries| else 0
  {
    if entries != [] {
      assert entries[0] in entries;
      CountOfUniform(entries[1..], uniform, kind);
    }
  }

  lemma PlanCounts(plan: BootstrapPlan, kind: Kind)
    ensures CountOf(Entries(plan), kind) == PlanCount(plan, kind)
  {
    var p, g, u := PolicyEntries(plan.policies), GroupEntries(plan.groups), UserEntries(plan.users);
    var m, up := MembershipEntries(plan.memberships), UserPolicyEntries(plan.userPolicies);
    var gp := GroupPolicyEntries(plan.groupPolicies);
    var c := CredentialEntries(plan.credentials);
    hide CountOf;
    CountOfConcat(p, g + (u + (m + (up + (gp + c)))), kind);
    CountOfConcat(g, u + (m + (up + (gp + c))), kind);
    CountOfConcat(u, m + (up + (gp + c)), kind);
    CountOfConcat(m, up + (gp + c), kind);
    CountOfConcat(up, gp + c, kind);
    CountOfConcat(gp, c, kind);
    CountOfUniform(p, Policies, kind);
    CountOfUniform(g, Groups, kind);
    CountOfUniform(u, Users, kind);
    CountOfUniform(m, Memberships, kind);
    CountOfUniform(up, Attachments, kind);
    CountOfUniform(gp, Attachments, kind);
    CountOfUniform(c, Credentials, kind);
  }

  lemma {:induction false} RunIsAdditive(t: Tables, report: Report, entries: seq<Entry>)
    requires ApplyAll(Running(t, report), entries).Running?
    ensures var t' := ApplyAll(Running(t, report), entries).tables;
            && Extends(t, t')
            && (forall entry :: entry in entries ==> Satisfied(t', entry))
            && (Valid(t) ==> Valid(t'))
    decreases entries
  {
    if entries != [] {
      var next := ApplyEntry(Running(t, report), entries[0]);
      if next.Stopped? {
        StoppedStays(next, entries[1..]);
        assert false;
      }
      WriteIsSound(t, entries[0]);
      RunIsAdditive(next.tables, next.report, entries[1..]);
      assert entries == [entries[0]] + entries[1..];
    }
  }

  lemma DescribedInTwoSteps(t0: Tables, t1: Tables, t2: Tables, first: set<Entry>, second: set<Entry>)
    requires Described(t0, t1, first) && Described(t1, t2, second) && Extends(t1, t2)
    ensures Described(t0, t2, first + second)
  {
  }

  lemma {:induction false} RunIsDescribed(t: Tables, report: Report, entries: seq<Entry>)
    requires ApplyAll(Running(t, report), entries).Running?
    ensures Described(t, ApplyAll(Running(t, report), entries).tables, set entry | entry in entries)
    decreases entries
  {
    if entries != [] {
      var next := ApplyEntry(Running(t, report), entries[0]);
      if next.Stopped? {
        StoppedStays(next, entries[1..]);
        assert false;
      }
      WriteIsSound(t, entries[0]);
      RunIsAdditive(next.tables, next.report, entries[1..]);
      RunIsDescribed(next.tables, next.report, entries[1..]);
      var rest := set entry | entry in entries[1..];
      DescribedInTwoSteps(t, next.tables, ApplyAll(next, entries[1..]).tables, {entries[0]}, rest);
      assert entries == [entries[0]] + entries[1..];
      assert (set entry | entry in entries) == {entries[0]} + rest;
    }
  }

  lemma {:induction false} RunConserves(t: Tables, report: Report, entries: seq<Entry>, kind: Kind)
    requires ApplyAll(Running(t, report), entries).Running?
    ensures var after := ApplyAll(Running(t, report), entries);
            && after.report.created.Of(kind) + after.report.skipped.Of(kind) ==
               report.created.Of(kind) + report.skipped.Of(kind) + CountOf(entries, kind)
            && Size(after.tables, kind) + report.created.Of(kind) == Size(t, kind) + after.report.created.Of(kind)
    decreases entries
  {
    if entries != [] {
      var next := ApplyEntry(Running(t, report), entries[0]);
      if next.Stopped? {
        StoppedStays(next, entries[1..]);
        assert false;
      }
      WriteGrowth(t, entries[0], kind);
      RunConserves(next.tables, next.report, entries[1..], kind);
    }
  }

  lemma {:induction false} SatisfiedRunSkips(t: Tables, report: Report, entries: seq<Entry>)
    requires forall entry :: entry in entries ==> Satisfied(t, entry)
    ensures var after := ApplyAll(Running(t, report), entries);
            && after.Running? && after.tables == t && after.report.created == report.created
            && forall kind :: after.report.skipped.Of(kind) == report.skipped.Of(kind) + CountOf(entries, kind)
    decreases entries
  {
    if entries != [] {
      assert entries[0] in entries;
      SatisfiedIsSkipped(t, entries[0]);
      SatisfiedRunSkips(t, report.Tally(entries[0].Kind(), false), entries[1..]);
    }
  }

  // ---------------------------------------------------------------------
  // Main results
  // ---------------------------------------------------------------------

  /** A successful run keeps every old row, satisfies every entry, adds nothing the
      plan does not describe, and keeps the invariant. */
  lemma BootstrapIsAdditive(t: Tables, plan: BootstrapPlan)
    requires Bootstrapped(t, plan).result.Ok?
    ensures var t' := Bootstrapped(t, plan).tables;
            && Extends(t, t')
            && (forall entry :: entry in Entries(plan) ==> Satisfied(t', entry))
            && Described(t, t', set entry | entry in Entries(plan))
            && (Valid(t) ==> Valid(t'))
  {
    RunIsAdditive(t, NOTHING, Entries(plan));
    RunIsDescribed(t, NOTHING, Entries(plan));
  }

  /** Per kind, created plus skipped is what the plan lists, and the tables grow by
      what was created. */
  lemma BootstrapConserves(t: Tables, plan: BootstrapPlan, kind: Kind)
    requires Bootstrapped(t, plan).result.Ok?
    ensures var Reply(t', result) := Bootstrapped(t, plan);
            && result.value.created.Of(kind) + result.value.skipped.Of(kind) == PlanCount(plan, kind)
            && Size(t', kind) == Size(t, kind) + result.value.created.Of(kind)
  {
    RunConserves(t, NOTHING, Entries(plan), kind);
    PlanCounts(plan, kind);
  }

  /** A second run of a plan that succeeded succeeds, changes nothing, creates
      nothing, and skips exactly what the plan lists, repeated entries included. */
  lemma BootstrapIsIdempotent(t: Tables, plan: BootstrapPlan)
    requires Bootstrapped(t, plan).result.Ok?
    ensures var t' := Bootstrapped(t, plan).tables;
            var Reply(t'', again) := Bootstrapped(t', plan);
            && t'' == t' && again.Ok? && again.value.created == NONE
            && forall kind :: again.value.skipped.Of(kind) == PlanCount(plan, kind)
  {
    BootstrapIsAdditive(t, plan);
    SatisfiedRunSkips(Bootstrapped(t, plan).tables, NOTHING, Entries(plan));
    forall kind
      ensures CountOf(Entries(plan), kind) == PlanCount(plan, kind)
    {
      PlanCounts(plan, kind);
    }
  }
}
