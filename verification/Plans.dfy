/** When a bootstrap plan succeeds, said of the plan and the tables it starts from. */
module Plans {
  import opened Wrappers
  import opened Types
  import opened Tables
  import opened Bootstrap

  // ---------------------------------------------------------------------
  // One entry behind others
  // ---------------------------------------------------------------------

  ghost predicate UserBefore(before: seq<Entry>, username: string)
  {
    exists i :: 0 <= i < |before| && before[i].UserEntry? && before[i].user.username == username
  }

  ghost predicate GroupBefore(before: seq<Entry>, id: string)
  {
    exists i :: 0 <= i < |before| && before[i].GroupEntry? && before[i].group.id == id
  }

  ghost predicate PolicyBefore(before: seq<Entry>, name: string)
  {
    exists i :: 0 <= i < |before| && before[i].PolicyEntry? && before[i].policy.name == name
  }

  ghost predicate KeyBefore(before: seq<Entry>, key: string)
  {
    exists i :: 0 <= i < |before| && before[i].CredentialEntry? && before[i].credential.accessKeyId == key
  }

  /** The entry at `i` is the first one for a username that is not stored. */
  ghost predicate IsNew(t: Tables, before: seq<Entry>, i: nat)
    requires i < |before|
  {
    && before[i].UserEntry? && before[i].user.username !in t.users
    && !UserBefore(before[..i], before[i].user.username)
  }

  /** Neither a stored row nor a new user among the entries has one of these values. */
  ghost predicate Free(t: Tables, before: seq<Entry>, user: NewUser)
  {
    && (forall name | name in t.users ::
          && (user.email.Some? ==> t.users[name].email != user.email)
          && (user.externalId.Some? ==> t.users[name].externalId != user.externalId))
    && (forall i | 0 <= i < |before| && IsNew(t, before, i) ::
          && (user.email.Some? ==> before[i].user.email != user.email)
          && (user.externalId.Some? ==> before[i].user.externalId != user.externalId))
  }

  /** The entry can be applied to tables `t` behind the entries `before`. */
  ghost predicate EntryFits(t: Tables, before: seq<Entry>, entry: Entry)
  {
    match entry
    case PolicyEntry(_) => true
    case GroupEntry(_) => true
    case UserEntry(user) =>
      && (user.username in t.users ==> user.externalId == t.users[user.username].externalId)
      && (forall i :: 0 <= i < |before| && before[i].UserEntry? && before[i].user.username == user.username ==>
           before[i].user.externalId == user.externalId)
      && (user.username !in t.users && !UserBefore(before, user.username) ==> Free(t, before, user))
    case MembershipEntry(row) =>
      && (row.0 in t.groups || GroupBefore(before, row.0))
      && (row.1 in t.users || UserBefore(before, row.1))
    case UserPolicyEntry(row) =>
      && (row.0 in t.users || UserBefore(before, row.0))
      && (row.1 in t.policies || PolicyBefore(before, row.1))
    case GroupPolicyEntry(row) =>
      && (row.0 in t.groups || GroupBefore(before, row.0))
      && (row.1 in t.policies || PolicyBefore(before, row.1))
    case CredentialEntry(credential) =>
      var key, username := credential.accessKeyId, credential.username;
      && (key in t.credentials ==> t.credentials[key].username == username)
      && (forall i :: 0 <= i < |before| && before[i].CredentialEntry? && before[i].credential.accessKeyId == key ==>
           before[i].credential.username == username)
      && (key !in t.credentials && !KeyBefore(before, key) ==> username in t.users || UserBefore(before, username))
  }

  ghost predicate AllFit(t: Tables, before: seq<Entry>, entries: seq<Entry>)
  {
    forall i :: 0 <= i < |entries| ==> EntryFits(t, before + entries[..i], entries[i])
  }

  // ---------------------------------------------------------------------
  // The tables behind some entries
  // ---------------------------------------------------------------------

  ghost predicate UsersSoFar(t0: Tables, before: seq<Entry>, t: Tables)
  {
    && (forall name :: name in t.users <==> name in t0.users || UserBefore(before, name))
    && (forall name | name in t0.users :: name in t.users && t.users[name] == t0.users[name])
    && (forall i :: 0 <= i < |before| && before[i].UserEntry? ==>
         && before[i].user.username in t.users
         && t.users[before[i].user.username].externalId == before[i].user.externalId)
    && (forall i :: 0 <= i < |before| && IsNew(t0, before, i) ==>
         t.users[before[i].user.username].email == before[i].user.email)
    && (forall name | name in t.users && name !in t0.users :: NewUnderName(t0, before, name))
  }

  ghost predicate NewUnderName(t0: Tables, before: seq<Entry>, name: string)
  {
    exists i :: 0 <= i < |before| && IsNew(t0, before, i) && before[i].user.username == name
  }

  ghost predicate CredentialsSoFar(t0: Tables, before: seq<Entry>, t: Tables)
  {
    && (forall key :: key in t.credentials <==> key in t0.credentials || KeyBefore(before, key))
    && (forall key | key in t0.credentials :: key in t.credentials && t.credentials[key] == t0.credentials[key])
    && (forall i :: 0 <= i < |before| && before[i].CredentialEntry? ==>
         && before[i].credential.accessKeyId in t.credentials
         && t.credentials[before[i].credential.accessKeyId].username == before[i].credential.username)
  }

  ghost predicate SoFar(t0: Tables, before: seq<Entry>, t: Tables)
  {
    && UsersSoFar(t0, before, t)
    && CredentialsSoFar(t0, before, t)
    && (forall id :: id in t.groups <==> id in t0.groups || GroupBefore(before, id))
    && (forall name :: name in t.policies <==> name in t0.policies || PolicyBefore(before, name))
  }

  lemma UserWriteFits(t0: Tables, before: seq<Entry>, t: Tables, user: NewUser)
    requires UsersSoFar(t0, before, t)
    ensures Write(t, UserEntry(user)).result.Ok? <==> EntryFits(t0, before, UserEntry(user))
  {
    if user.username in t.users {
      if user.username !in t0.users {
        assert NewUnderName(t0, before, user.username);
      }
    } else {
      TakenIsNotFree(t0, before, t, user);
      hide EmailTaken, ExternalIdTaken, Free;
    }
  }

  lemma TakenIsNotFree(t0: Tables, before: seq<Entry>, t: Tables, user: NewUser)
    requires UsersSoFar(t0, before, t)
    ensures Free(t0, before, user) <==>
            !(user.email.Some? && EmailTaken(t.users, user.email.value))
            && !(user.externalId.Some? && ExternalIdTaken(t.users, user.externalId.value))
  {
    if Free(t0, before, user) {
      forall name | name in t.users
        ensures user.email.Some? ==> t.users[name].email != user.email
        ensures user.externalId.Some? ==> t.users[name].externalId != user.externalId
      {
        if name !in t0.users {
          assert NewUnderName(t0, before, name);
        }
      }
    } else {
      if name :| name in t0.users && ((user.email.Some? && t0.users[name].email == user.email)
                                      || (user.externalId.Some? && t0.users[name].externalId == user.externalId)) {
        assert name in t.users && t.users[name] == t0.users[name];
      } else {
        var i :| 0 <= i < |before| && IsNew(t0, before, i)
          && ((user.email.Some? && before[i].user.email == user.email)
              || (user.externalId.Some? && before[i].user.externalId == user.externalId));
        assert before[i].user.username in t.users;
      }
    }
  }

  /** A write succeeds exactly when its entry fits. */
  lemma WriteFits(t0: Tables, before: seq<Entry>, t: Tables, entry: Entry)
    requires SoFar(t0, before, t)
    ensures Write(t, entry).result.Ok? <==> EntryFits(t0, before, entry)
  {
    if entry.UserEntry? {
      UserWriteFits(t0, before, t, entry.user);
    } else {
      hide UsersSoFar, IsNew, Free, EmailTaken, ExternalIdTaken;
      assert forall name :: name in t.users <==> name in t0.users || UserBefore(before, name) by { UsersKnown(t0, before, t); }
      hide UserBefore, GroupBefore, PolicyBefore;
    }
  }

  lemma UsersKnown(t0: Tables, before: seq<Entry>, t: Tables)
    requires UsersSoFar(t0, before, t)
    ensures forall name :: name in t.users <==> name in t0.users || UserBefore(before, name)
  {
  }

  // What one more entry adds to what came before.

  lemma OneMore(t0: Tables, before: seq<Entry>, entry: Entry)
    ensures var more := before + [entry];
            && (forall name :: UserBefore(more, name) <==> UserBefore(before, name) || (entry.UserEntry? && entry.user.username == name))
            && (forall id :: GroupBefore(more, id) <==> GroupBefore(before, id) || (entry.GroupEntry? && entry.group.id == id))
            && (forall name :: PolicyBefore(more, name) <==> PolicyBefore(before, name) || (entry.PolicyEntry? && entry.policy.name == name))
            && (forall key :: KeyBefore(more, key) <==> KeyBefore(before, key) || (entry.CredentialEntry? && entry.credential.accessKeyId == key))
            && (forall i :: 0 <= i < |before| ==> (IsNew(t0, more, i) <==> IsNew(t0, before, i)))
            && (IsNew(t0, more, |before|) <==>
                 entry.UserEntry? && entry.user.username !in t0.users && !UserBefore(before, entry.user.username))
  {
    var more := before + [entry];
    assert more[..|before|] == before && more[|before|] == entry;
    assert forall i :: 0 <= i < |before| ==> more[i] == before[i] && more[..i] == before[..i];
  }

  lemma StaysNew(t0: Tables, before: seq<Entry>, entry: Entry, name: string)
    requires NewUnderName(t0, before, name)
    ensures NewUnderName(t0, before + [entry], name)
  {
    var more := before + [entry];
    var i :| 0 <= i < |before| && IsNew(t0, before, i) && before[i].user.username == name;
    assert more[i] == before[i] && more[..i] == before[..i];
    assert IsNew(t0, more, i);
  }

  lemma NewIsUser(t0: Tables, before: seq<Entry>)
    ensures forall i :: 0 <= i < |before| && IsNew(t0, before, i) ==> before[i].UserEntry?
  {
  }

  /** Which tables of rows a write touches, and what it leaves under its key. */
  ghost predicate Touched(t: Tables, t': Tables, entry: Entry)
  {
    && (t'.users == t.users || (entry.UserEntry? && AddsUser(t, t', entry.user)))
    && t'.groups.Keys == t.groups.Keys + (if entry.GroupEntry? then {entry.group.id} else {})
    && t'.policies.Keys == t.policies.Keys + (if entry.PolicyEntry? then {entry.policy.name} else {})
    && (t'.credentials == t.credentials || (entry.CredentialEntry? && AddsCredential(t, t', entry.credential)))
  }

  lemma PolicyOrGroupTouches(t: Tables, entry: Entry)
    requires (entry.PolicyEntry? || entry.GroupEntry?) && Write(t, entry).result.Ok?
    ensures Touched(t, Write(t, entry).tables, entry)
  {
    hide InsertUser, InsertCredential, AddMembership, AttachToUser, AttachToGroup, AddsUser, AddsCredential;
    var t' := Write(t, entry).tables;
    assert t'.users == t.users && t'.credentials == t.credentials;
  }

  lemma UserTouches(t: Tables, user: NewUser)
    requires Write(t, UserEntry(user)).result.Ok?
    ensures Touched(t, Write(t, UserEntry(user)).tables, UserEntry(user))
  {
    hide EmailTaken, ExternalIdTaken;
    var t' := Write(t, UserEntry(user)).tables;
    assert t'.groups == t.groups && t'.policies == t.policies && t'.credentials == t.credentials;
    assert t' == t || AddsUser(t, t', user);
    hide Write, AddsUser, AddsCredential;
  }

  lemma CredentialTouches(t: Tables, credential: NewCredential)
    requires Write(t, CredentialEntry(credential)).result.Ok?
    ensures Touched(t, Write(t, CredentialEntry(credential)).tables, CredentialEntry(credential))
  {
    var t' := Write(t, CredentialEntry(credential)).tables;
    assert t'.groups == t.groups && t'.policies == t.policies && t'.users == t.users;
    assert t' == t || AddsCredential(t, t', credential);
    hide Write, AddsUser, AddsCredential;
  }

  lemma LinkTouches(t: Tables, entry: Entry)
    requires entry.MembershipEntry? || entry.UserPolicyEntry? || entry.GroupPolicyEntry?
    ensures Touched(t, Write(t, entry).tables, entry)
  {
    hide InsertUser, InsertGroup, InsertPolicy, InsertCredential;
    var t' := Write(t, entry).tables;
    assert t'.users == t.users && t'.groups == t.groups && t'.policies == t.policies && t'.credentials == t.credentials;
  }

  ghost predicate AddsUser(t: Tables, t': Tables, user: NewUser)
  {
    && user.username !in t.users && user.username in t'.users && t'.users == t.users[user.username := t'.users[user.username]]
    && t'.users[user.username].email == user.email && t'.users[user.username].externalId == user.externalId
  }

  ghost predicate AddsCredential(t: Tables, t': Tables, credential: NewCredential)
  {
    var key := credential.accessKeyId;
    && key !in t.credentials && key in t'.credentials && t'.credentials == t.credentials[key := t'.credentials[key]]
    && t'.credentials[key].username == credential.username
  }

  lemma NewOnesMoveOn(t0: Tables, before: seq<Entry>, t: Tables, entry: Entry, t': Tables)
    requires UsersSoFar(t0, before, t)
    requires t'.users == t.users || (entry.UserEntry? && AddsUser(t, t', entry.user))
    ensures forall name | name in t'.users && name !in t0.users :: NewUnderName(t0, before + [entry], name)
  {
    var more := before + [entry];
    OneMore(t0, before, entry);
    forall name | name in t'.users && name !in t0.users
      ensures NewUnderName(t0, more, name)
    {
      if name in t.users {
        StaysNew(t0, before, entry, name);
      } else {
        assert IsNew(t0, more, |before|) && more[|before|] == entry;
      }
    }
  }

  lemma NamesMoveOn(t0: Tables, before: seq<Entry>, t: Tables, entry: Entry, t': Tables)
    requires UsersSoFar(t0, before, t)
    requires t'.users == t.users || (entry.UserEntry? && AddsUser(t, t', entry.user))
    requires Satisfied(t', entry)
    ensures forall name :: name in t'.users <==> name in t0.users || UserBefore(before + [entry], name)
    ensures forall name | name in t0.users :: name in t'.users && t'.users[name] == t0.users[name]
  {
    OneMore(t0, before, entry);
    hide UserBefore, IsNew, NewUnderName;
  }

  /** The columns that later entries look at. */
  lemma ColumnsMoveOn(t0: Tables, before: seq<Entry>, t: Tables, entry: Entry, t': Tables, i: nat)
    requires UsersSoFar(t0, before, t) && i <= |before|
    requires t'.users == t.users || (entry.UserEntry? && AddsUser(t, t', entry.user))
    requires Satisfied(t', entry)
    requires var more := before + [entry]; more[i].UserEntry?
    ensures var more := before + [entry];
            var user := more[i].user;
            && user.username in t'.users && t'.users[user.username].externalId == user.externalId
            && (IsNew(t0, more, i) ==> t'.users[user.username].email == user.email)
  {
    var more := before + [entry];
    OneMore(t0, before, entry);
    hide UserBefore, NewUnderName;
    if i < |before| {
      assert more[i] == before[i];
    } else {
      assert more[i] == entry && more[..i] == before;
    }
  }

  lemma UsersMoveOn(t0: Tables, before: seq<Entry>, t: Tables, entry: Entry, t': Tables)
    requires UsersSoFar(t0, before, t)
    requires t'.users == t.users || (entry.UserEntry? && AddsUser(t, t', entry.user))
    requires Satisfied(t', entry)
    ensures UsersSoFar(t0, before + [entry], t')
  {
    var more := before + [entry];
    NamesMoveOn(t0, before, t, entry, t');
    NewOnesMoveOn(t0, before, t, entry, t');
    NewIsUser(t0, more);
    forall i | 0 <= i < |more| && more[i].UserEntry?
      ensures more[i].user.username in t'.users && t'.users[more[i].user.username].externalId == more[i].user.externalId
      ensures IsNew(t0, more, i) ==> t'.users[more[i].user.username].email == more[i].user.email
    {
      ColumnsMoveOn(t0, before, t, entry, t', i);
    }
    hide UserBefore, IsNew, NewUnderName, Satisfied, AddsUser;
  }

  lemma CredentialsMoveOn(t0: Tables, before: seq<Entry>, t: Tables, entry: Entry, t': Tables)
    requires CredentialsSoFar(t0, before, t)
    requires t'.credentials == t.credentials || (entry.CredentialEntry? && AddsCredential(t, t', entry.credential))
    requires Satisfied(t', entry)
    ensures CredentialsSoFar(t0, before + [entry], t')
  {
    OneMore(t0, before, entry);
    hide KeyBefore, IsNew;
  }

  /** A write moves `SoFar` on by its entry. */
  lemma WriteKeepsSoFar(t0: Tables, before: seq<Entry>, t: Tables, entry: Entry)
    requires SoFar(t0, before, t) && Write(t, entry).result.Ok?
    ensures SoFar(t0, before + [entry], Write(t, entry).tables)
  {
    var t' := Write(t, entry).tables;
    WriteTouches(t, entry);
    hide Write, Touched, SoFar, Satisfied;
    MovesOn(t0, before, t, entry, t');
  }

  lemma WriteTouches(t: Tables, entry: Entry)
    requires Write(t, entry).result.Ok?
    ensures Touched(t, Write(t, entry).tables, entry) && Satisfied(Write(t, entry).tables, entry)
  {
    WriteIsSound(t, entry);
    hide Write, Touched, Satisfied, Valid, Extends, Described;
    if entry.MembershipEntry? || entry.UserPolicyEntry? || entry.GroupPolicyEntry? {
      LinkTouches(t, entry);
    } else if entry.UserEntry? {
      UserTouches(t, entry.user);
    } else if entry.CredentialEntry? {
      CredentialTouches(t, entry.credential);
    } else {
      PolicyOrGroupTouches(t, entry);
    }
  }

  lemma MovesOn(t0: Tables, before: seq<Entry>, t: Tables, entry: Entry, t': Tables)
    requires SoFar(t0, before, t) && Touched(t, t', entry) && Satisfied(t', entry)
    ensures SoFar(t0, before + [entry], t')
  {
    OneMore(t0, before, entry);
    hide UsersSoFar, CredentialsSoFar, AddsUser, AddsCredential, IsNew, UserBefore, GroupBefore, PolicyBefore, KeyBefore,
      Satisfied;
    UsersMoveOn(t0, before, t, entry, t');
    CredentialsMoveOn(t0, before, t, entry, t');
    assert forall id :: id in t'.groups <==> id in t'.groups.Keys;
    assert forall name :: name in t'.policies <==> name in t'.policies.Keys;
  }

  lemma FitsFirst(t0: Tables, before: seq<Entry>, entries: seq<Entry>)
    requires entries != []
    ensures AllFit(t0, before, entries) <==>
            EntryFits(t0, before, entries[0]) && AllFit(t0, before + [entries[0]], entries[1..])
  {
    hide EntryFits;
    var rest, more := entries[1..], before + [entries[0]];
    assert before + entries[..0] == before;
    forall i | 0 <= i < |rest|
      ensures EntryFits(t0, more + rest[..i], rest[i]) <==> EntryFits(t0, before + entries[..i + 1], entries[i + 1])
    {
      assert more + rest[..i] == before + entries[..i + 1];
    }
    if EntryFits(t0, before, entries[0]) && AllFit(t0, more, rest) {
      forall i | 0 <= i < |entries|
        ensures EntryFits(t0, before + entries[..i], entries[i])
      {
        if i > 0 {
          assert EntryFits(t0, more + rest[..i - 1], rest[i - 1]);
        }
      }
    }
  }

  /** A run goes through exactly when every entry fits behind the ones before it. */
  lemma {:induction false} RunFits(t0: Tables, before: seq<Entry>, entries: seq<Entry>, t: Tables, report: Report)
    requires SoFar(t0, before, t)
    ensures ApplyAll(Running(t, report), entries).Running? <==> AllFit(t0, before, entries)
    decreases entries
  {
    hide SoFar, EntryFits, Write;
    if entries != [] {
      hide AllFit;
      FitsFirst(t0, before, entries);
      WriteFits(t0, before, t, entries[0]);
      var reply := Write(t, entries[0]);
      if reply.result.Ok? {
        WriteKeepsSoFar(t0, before, t, entries[0]);
        RunFits(t0, before + [entries[0]], entries[1..], reply.tables, report.Tally(entries[0].Kind(), reply.result.value));
      } else {
        StoppedStays(ApplyEntry(Running(t, report), entries[0]), entries[1..]);
      }
    }
  }

  lemma NothingSoFar(t: Tables)
    ensures SoFar(t, [], t)
  {
  }

  /** A plan succeeds if and only if each of its entries fits behind the ones before. */
  lemma BootstrapSucceeds(t: Tables, plan: BootstrapPlan)
    ensures Bootstrapped(t, plan).result.Ok? <==> AllFit(t, [], Entries(plan))
  {
    hide ApplyAll, AllFit, SoFar;
    NothingSoFar(t);
    RunFits(t, [], Entries(plan), t, NOTHING);
  }

  /** An entry that would be granted to someone else stops the run with that error;
      links and new keys without their ends stop it as not found. */
  lemma WriteErrors(t: Tables, entry: Entry)
    ensures entry.UserEntry? && entry.user.username in t.users
            && entry.user.externalId != t.users[entry.user.username].externalId ==>
              Write(t, entry) == Reply(t, Err(WrongIdentity("user", entry.user.username)))
    ensures entry.CredentialEntry? && entry.credential.accessKeyId in t.credentials
            && entry.credential.username != t.credentials[entry.credential.accessKeyId].username ==>
              Write(t, entry) == Reply(t, Err(WrongIdentity("credentials", entry.credential.accessKeyId)))
    ensures Write(t, entry).result.Err? && Write(t, entry).result.error.WrongIdentity? ==>
              (entry.UserEntry? && entry.user.username in t.users)
              || (entry.CredentialEntry? && entry.credential.accessKeyId in t.credentials)
    ensures (entry.MembershipEntry? || entry.UserPolicyEntry? || entry.GroupPolicyEntry?) && Write(t, entry).result.Err? ==>
              Write(t, entry).result.error.NotFound?
    ensures Write(t, entry).result.Err? ==> Write(t, entry).tables == t
  {
    hide EmailTaken, ExternalIdTaken;
  }

  // ---------------------------------------------------------------------
  // The same, list by list
  // ---------------------------------------------------------------------

  ghost predicate KnownUser(t: Tables, plan: BootstrapPlan, username: string)
  {
    username in t.users || exists i :: 0 <= i < |plan.users| && plan.users[i].username == username
  }

  ghost predicate KnownGroup(t: Tables, plan: BootstrapPlan, id: string)
  {
    id in t.groups || exists i :: 0 <= i < |plan.groups| && plan.groups[i].id == id
  }

  ghost predicate KnownPolicy(t: Tables, plan: BootstrapPlan, name: string)
  {
    name in t.policies || exists i :: 0 <= i < |plan.policies| && plan.policies[i].name == name
  }

  /** The key belongs to the entry's user, in the store and in the earlier entries; a
      key that is not stored belongs to a user that is known. */
  ghost predicate CredentialFits(t: Tables, plan: BootstrapPlan, i: nat)
    requires i < |plan.credentials|
  {
    var key, username := plan.credentials[i].accessKeyId, plan.credentials[i].username;
    && (key in t.credentials ==> t.credentials[key].username == username)
    && (key !in t.credentials ==> KnownUser(t, plan, username))
    && (forall j :: 0 <= j < i && plan.credentials[j].accessKeyId == key ==> plan.credentials[j].username == username)
  }

  /** Policies and groups always fit. A user fits behind the users listed before it;
      the ends of a membership or an attachment are stored or listed. */
  ghost predicate PlanFits(t: Tables, plan: BootstrapPlan)
  {
    && (forall i :: 0 <= i < |plan.users| ==> EntryFits(t, UserEntries(plan.users[..i]), UserEntry(plan.users[i])))
    && (forall row | row in plan.memberships :: KnownGroup(t, plan, row.0) && KnownUser(t, plan, row.1))
    && (forall row | row in plan.userPolicies :: KnownUser(t, plan, row.0) && KnownPolicy(t, plan, row.1))
    && (forall row | row in plan.groupPolicies :: KnownGroup(t, plan, row.0) && KnownPolicy(t, plan, row.1))
    && (forall i :: 0 <= i < |plan.credentials| ==> CredentialFits(t, plan, i))
  }

  lemma AllFitConcat(t: Tables, before: seq<Entry>, first: seq<Entry>, second: seq<Entry>)
    ensures AllFit(t, before, first + second) <==> AllFit(t, before, first) && AllFit(t, before + first, second)
  {
    hide EntryFits;
    var all := first + second;
    forall i | 0 <= i < |first|
      ensures EntryFits(t, before + all[..i], all[i]) <==> EntryFits(t, before + first[..i], first[i])
    {
      assert all[..i] == first[..i];
    }
    forall i | 0 <= i < |second|
      ensures EntryFits(t, before + all[..|first| + i], all[|first| + i]) <==> EntryFits(t, before + first + second[..i], second[i])
    {
      assert before + all[..|first| + i] == before + first + second[..i];
    }
    if AllFit(t, before, all) {
      forall i | 0 <= i < |second|
        ensures EntryFits(t, before + first + second[..i], second[i])
      {
        assert EntryFits(t, before + all[..|first| + i], all[|first| + i]);
      }
    }
    if AllFit(t, before, first) && AllFit(t, before + first, second) {
      forall i | 0 <= i < |all|
        ensures EntryFits(t, before + all[..i], all[i])
      {
        if i >= |first| {
          assert EntryFits(t, before + first + second[..i - |first|], second[i - |first|]);
        }
      }
    }
  }

  lemma BeforeConcat(first: seq<Entry>, second: seq<Entry>)
    ensures forall name :: UserBefore(first + second, name) <==> UserBefore(first, name) || UserBefore(second, name)
    ensures forall id :: GroupBefore(first + second, id) <==> GroupBefore(first, id) || GroupBefore(second, id)
    ensures forall name :: PolicyBefore(first + second, name) <==> PolicyBefore(first, name) || PolicyBefore(second, name)
    ensures forall key :: KeyBefore(first + second, key) <==> KeyBefore(first, key) || KeyBefore(second, key)
  {
    var all := first + second;
    assert forall i :: 0 <= i < |first| ==> all[i] == first[i];
    assert forall i :: 0 <= i < |second| ==> all[|first| + i] == second[i];
    assert forall i :: |first| <= i < |all| ==> all[i] == second[i - |first|];
  }

  /** Nothing of the four kinds that are looked up. */
  ghost predicate NoNames(entries: seq<Entry>)
  {
    forall i :: 0 <= i < |entries| ==>
      entries[i].MembershipEntry? || entries[i].UserPolicyEntry? || entries[i].GroupPolicyEntry?
  }

  lemma NoNamesBefore(entries: seq<Entry>, i: nat)
    requires NoNames(entries) && i <= |entries|
    ensures forall text :: !UserBefore(entries[..i], text) && !GroupBefore(entries[..i], text)
    ensures forall text :: !PolicyBefore(entries[..i], text) && !KeyBefore(entries[..i], text)
  {
  }

  /** Links fit behind the entries before all of them. */
  lemma LinksFit(t: Tables, before: seq<Entry>, entries: seq<Entry>)
    requires NoNames(entries)
    ensures AllFit(t, before, entries) <==> forall i :: 0 <= i < |entries| ==> EntryFits(t, before, entries[i])
  {
    forall i | 0 <= i < |entries|
      ensures EntryFits(t, before + entries[..i], entries[i]) <==> EntryFits(t, before, entries[i])
    {
      BeforeConcat(before, entries[..i]);
      NoNamesBefore(entries, i);
    }
  }

  lemma PoliciesAndGroupsFit(t: Tables, before: seq<Entry>, plan: BootstrapPlan)
    ensures AllFit(t, before, PolicyEntries(plan.policies))
    ensures AllFit(t, before, GroupEntries(plan.groups))
  {
  }

  /** The new users behind a front that holds no users are the same. */
  lemma FrontHasNoNew(t: Tables, front: seq<Entry>, before: seq<Entry>)
    requires forall i :: 0 <= i < |front| ==> !front[i].UserEntry?
    ensures var all := front + before;
            && (forall i :: 0 <= i < |front| ==> !IsNew(t, all, i))
            && (forall i :: |front| <= i < |all| ==> (IsNew(t, all, i) <==> IsNew(t, before, i - |front|)))
  {
    var all, n := front + before, |front|;
    forall i | n <= i < |all|
      ensures IsNew(t, all, i) <==> IsNew(t, before, i - n)
    {
      assert all[..i] == front + before[..i - n];
      BeforeConcat(front, before[..i - n]);
    }
  }

  /** Entries in front that are no users make no difference to a user. */
  lemma FrontIsIrrelevant(t: Tables, front: seq<Entry>, before: seq<Entry>, user: NewUser)
    requires forall i :: 0 <= i < |front| ==> !front[i].UserEntry?
    ensures EntryFits(t, front + before, UserEntry(user)) <==> EntryFits(t, before, UserEntry(user))
  {
    var all, n := front + before, |front|;
    BeforeConcat(front, before);
    FrontHasNoNew(t, front, before);
    assert !UserBefore(front, user.username);
    assert forall i :: 0 <= i < |before| ==> all[n + i] == before[i] && (IsNew(t, all, n + i) <==> IsNew(t, before, i));
    assert forall i :: n <= i < |all| ==> all[i] == before[i - n];
    NewIsUser(t, all);
    NewIsUser(t, before);
    hide UserBefore, IsNew;
    assert Free(t, all, user) <==> Free(t, before, user);
    hide Free;
  }

  lemma UsersFit(t: Tables, front: seq<Entry>, users: seq<NewUser>)
    requires forall i :: 0 <= i < |front| ==> !front[i].UserEntry?
    ensures AllFit(t, front, UserEntries(users)) <==>
            forall i :: 0 <= i < |users| ==> EntryFits(t, UserEntries(users[..i]), UserEntry(users[i]))
  {
    var entries := UserEntries(users);
    hide EntryFits;
    forall i | 0 <= i < |users|
      ensures EntryFits(t, front + entries[..i], entries[i]) <==> EntryFits(t, UserEntries(users[..i]), UserEntry(users[i]))
    {
      assert entries[..i] == UserEntries(users[..i]);
      FrontIsIrrelevant(t, front, entries[..i], users[i]);
    }
  }

  /** What the lists of a plan name. */
  lemma NamesOfLists(plan: BootstrapPlan)
    ensures var front := PolicyEntries(plan.policies) + GroupEntries(plan.groups) + UserEntries(plan.users);
            && (forall name :: UserBefore(front, name) <==> exists i :: 0 <= i < |plan.users| && plan.users[i].username == name)
            && (forall id :: GroupBefore(front, id) <==> exists i :: 0 <= i < |plan.groups| && plan.groups[i].id == id)
            && (forall name :: PolicyBefore(front, name) <==> exists i :: 0 <= i < |plan.policies| && plan.policies[i].name == name)
            && (forall key :: !KeyBefore(front, key))
  {
    var p, g, u := PolicyEntries(plan.policies), GroupEntries(plan.groups), UserEntries(plan.users);
    BeforeConcat(p + g, u);
    BeforeConcat(p, g);
    assert forall name :: UserBefore(u, name) <==> exists i :: 0 <= i < |plan.users| && plan.users[i].username == name by {
      assert forall i :: 0 <= i < |plan.users| ==> u[i].user == plan.users[i];
    }
    assert forall id :: GroupBefore(g, id) <==> exists i :: 0 <= i < |plan.groups| && plan.groups[i].id == id by {
      assert forall i :: 0 <= i < |plan.groups| ==> g[i].group == plan.groups[i];
    }
    assert forall name :: PolicyBefore(p, name) <==> exists i :: 0 <= i < |plan.policies| && plan.policies[i].name == name by {
      assert forall i :: 0 <= i < |plan.policies| ==> p[i].policy == plan.policies[i];
    }
  }

  /** What a credential sees behind entries that hold no credentials. */
  lemma CredentialSees(t: Tables, plan: BootstrapPlan, before: seq<Entry>, i: nat)
    requires i < |plan.credentials|
    requires forall key :: !KeyBefore(before, key)
    requires forall name :: name in t.users || UserBefore(before, name) <==> KnownUser(t, plan, name)
    ensures var key, username := plan.credentials[i].accessKeyId, plan.credentials[i].username;
            EntryFits(t, before + CredentialEntries(plan.credentials[..i]), CredentialEntry(plan.credentials[i])) <==>
            && (key in t.credentials ==> t.credentials[key].username == username)
            && (forall j :: 0 <= j < i && plan.credentials[j].accessKeyId == key ==> plan.credentials[j].username == username)
            && (key !in t.credentials && (forall j :: 0 <= j < i ==> plan.credentials[j].accessKeyId != key) ==>
                 KnownUser(t, plan, username))
  {
    var listed := CredentialEntries(plan.credentials[..i]);
    var all := before + listed;
    BeforeConcat(before, listed);
    assert forall name :: !UserBefore(listed, name);
    assert forall j :: 0 <= j < i ==> listed[j].credential == plan.credentials[j];
    assert forall j :: 0 <= j < i ==> all[|before| + j] == listed[j];
    assert forall j :: |before| <= j < |all| ==> all[j] == listed[j - |before|];
    assert forall j :: 0 <= j < |before| && before[j].CredentialEntry? ==> KeyBefore(before, before[j].credential.accessKeyId);
    hide UserBefore, KnownUser;
  }

  lemma {:induction false} CredentialFitsToo(t: Tables, plan: BootstrapPlan, before: seq<Entry>, i: nat)
    requires i < |plan.credentials|
    requires forall key :: !KeyBefore(before, key)
    requires forall name :: name in t.users || UserBefore(before, name) <==> KnownUser(t, plan, name)
    requires forall j :: 0 <= j <= i ==>
               EntryFits(t, before + CredentialEntries(plan.credentials[..j]), CredentialEntry(plan.credentials[j]))
    ensures CredentialFits(t, plan, i)
  {
    CredentialSees(t, plan, before, i);
    hide EntryFits, KnownUser, KeyBefore, UserBefore;
    if j :| 0 <= j < i && plan.credentials[j].accessKeyId == plan.credentials[i].accessKeyId {
      CredentialFitsToo(t, plan, before, j);
    }
  }

  lemma CredentialsFit(t: Tables, plan: BootstrapPlan, before: seq<Entry>)
    requires forall key :: !KeyBefore(before, key)
    requires forall name :: name in t.users || UserBefore(before, name) <==> KnownUser(t, plan, name)
    ensures AllFit(t, before, CredentialEntries(plan.credentials)) <==>
            forall i :: 0 <= i < |plan.credentials| ==> CredentialFits(t, plan, i)
  {
    var entries := CredentialEntries(plan.credentials);
    hide EntryFits, KnownUser, KeyBefore, UserBefore;
    assert forall i :: 0 <= i < |entries| ==>
        entries[..i] == CredentialEntries(plan.credentials[..i]) && entries[i] == CredentialEntry(plan.credentials[i]);
    if AllFit(t, before, entries) {
      forall i | 0 <= i < |entries|
        ensures CredentialFits(t, plan, i)
      {
        assert forall j :: 0 <= j <= i ==> EntryFits(t, before + entries[..j], entries[j]);
        CredentialFitsToo(t, plan, before, i);
      }
    }
    if forall i :: 0 <= i < |plan.credentials| ==> CredentialFits(t, plan, i) {
      forall i | 0 <= i < |entries|
        ensures EntryFits(t, before + entries[..i], entries[i])
      {
        CredentialSees(t, plan, before, i);
        assert CredentialFits(t, plan, i);
      }
    }
  }

  lemma MembershipsFit(t: Tables, plan: BootstrapPlan, before: seq<Entry>)
    requires Knows(t, plan, before)
    ensures NoNames(MembershipEntries(plan.memberships))
    ensures AllFit(t, before, MembershipEntries(plan.memberships)) <==>
            forall row | row in plan.memberships :: KnownGroup(t, plan, row.0) && KnownUser(t, plan, row.1)
  {
    var entries := MembershipEntries(plan.memberships);
    LinksFit(t, before, entries);
    hide AllFit, UserBefore, GroupBefore, PolicyBefore, KeyBefore, KnownUser, KnownGroup, KnownPolicy;
    assert forall i :: 0 <= i < |entries| ==> entries[i] == MembershipEntry(plan.memberships[i]);
  }

  lemma UserPoliciesFit(t: Tables, plan: BootstrapPlan, before: seq<Entry>)
    requires Knows(t, plan, before)
    ensures NoNames(UserPolicyEntries(plan.userPolicies))
    ensures AllFit(t, before, UserPolicyEntries(plan.userPolicies)) <==>
            forall row | row in plan.userPolicies :: KnownUser(t, plan, row.0) && KnownPolicy(t, plan, row.1)
  {
    var entries := UserPolicyEntries(plan.userPolicies);
    LinksFit(t, before, entries);
    hide AllFit, UserBefore, GroupBefore, PolicyBefore, KeyBefore, KnownUser, KnownGroup, KnownPolicy;
    assert forall i :: 0 <= i < |entries| ==> entries[i] == UserPolicyEntry(plan.userPolicies[i]);
  }

  lemma GroupPoliciesFit(t: Tables, plan: BootstrapPlan, before: seq<Entry>)
    requires Knows(t, plan, before)
    ensures NoNames(GroupPolicyEntries(plan.groupPolicies))
    ensures AllFit(t, before, GroupPolicyEntries(plan.groupPolicies)) <==>
            forall row | row in plan.groupPolicies :: KnownGroup(t, plan, row.0) && KnownPolicy(t, plan, row.1)
  {
    var entries := GroupPolicyEntries(plan.groupPolicies);
    LinksFit(t, before, entries);
    hide AllFit, UserBefore, GroupBefore, PolicyBefore, KeyBefore, KnownUser, KnownGroup, KnownPolicy;
    assert forall i :: 0 <= i < |entries| ==> entries[i] == GroupPolicyEntry(plan.groupPolicies[i]);
  }

  /** The entries hold the users, groups and policies of the plan, and no keys. */
  ghost predicate Knows(t: Tables, plan: BootstrapPlan, before: seq<Entry>)
  {
    && (forall name :: name in t.users || UserBefore(before, name) <==> KnownUser(t, plan, name))
    && (forall id :: id in t.groups || GroupBefore(before, id) <==> KnownGroup(t, plan, id))
    && (forall name :: name in t.policies || PolicyBefore(before, name) <==> KnownPolicy(t, plan, name))
    && (forall key :: !KeyBefore(before, key))
  }

  lemma StillKnows(t: Tables, plan: BootstrapPlan, before: seq<Entry>, links: seq<Entry>)
    requires Knows(t, plan, before) && NoNames(links)
    ensures Knows(t, plan, before + links)
  {
    BeforeConcat(before, links);
    NoNamesBefore(links, |links|);
    assert links[..|links|] == links;
    hide UserBefore, GroupBefore, PolicyBefore, KeyBefore, KnownUser, KnownGroup, KnownPolicy, NoNames;
  }

  /** The links and credentials behind the lists that they name. */
  lemma BackFits(t: Tables, plan: BootstrapPlan, front: seq<Entry>)
    requires Knows(t, plan, front)
    ensures AllFit(t, front, MembershipEntries(plan.memberships) + (UserPolicyEntries(plan.userPolicies) + (
                   GroupPolicyEntries(plan.groupPolicies) + CredentialEntries(plan.credentials)))) <==>
            && (forall row | row in plan.memberships :: KnownGroup(t, plan, row.0) && KnownUser(t, plan, row.1))
            && (forall row | row in plan.userPolicies :: KnownUser(t, plan, row.0) && KnownPolicy(t, plan, row.1))
            && (forall row | row in plan.groupPolicies :: KnownGroup(t, plan, row.0) && KnownPolicy(t, plan, row.1))
            && (forall i :: 0 <= i < |plan.credentials| ==> CredentialFits(t, plan, i))
  {
    var m, up := MembershipEntries(plan.memberships), UserPolicyEntries(plan.userPolicies);
    var gp, c := GroupPolicyEntries(plan.groupPolicies), CredentialEntries(plan.credentials);
    AllFitConcat(t, front, m, up + (gp + c));
    AllFitConcat(t, front + m, up, gp + c);
    AllFitConcat(t, front + m + up, gp, c);
    MembershipsFit(t, plan, front);
    StillKnows(t, plan, front, m);
    UserPoliciesFit(t, plan, front + m);
    StillKnows(t, plan, front + m, up);
    GroupPoliciesFit(t, plan, front + m + up);
    StillKnows(t, plan, front + m + up, gp);
    assert (forall i :: 0 <= i < |plan.credentials| ==> CredentialFits(t, plan, i)) <==> AllFit(t, front + m + up + gp, c) by {
      CredentialsFit(t, plan, front + m + up + gp);
    }
    hide AllFit, Knows, KnownUser, KnownGroup, KnownPolicy, CredentialFits, MembershipEntries, UserPolicyEntries,
      GroupPolicyEntries, CredentialEntries;
  }

  lemma FrontFits(t: Tables, plan: BootstrapPlan)
    ensures var front := PolicyEntries(plan.policies) + GroupEntries(plan.groups) + UserEntries(plan.users);
            && Knows(t, plan, front)
            && (AllFit(t, [], front) <==>
                 forall i :: 0 <= i < |plan.users| ==> EntryFits(t, UserEntries(plan.users[..i]), UserEntry(plan.users[i])))
  {
    var p, g, u := PolicyEntries(plan.policies), GroupEntries(plan.groups), UserEntries(plan.users);
    NamesOfLists(plan);
    assert Knows(t, plan, p + g + u) by { hide UserBefore, GroupBefore, PolicyBefore, KeyBefore; }
    var pg: seq<Entry> := p + g;
    assert forall i :: 0 <= i < |pg| ==> !pg[i].UserEntry?;
    PoliciesAndGroupsFit(t, [], plan);
    PoliciesAndGroupsFit(t, p, plan);
    assert [] + (p + g) == p + g && [] + p == p;
    AllFitConcat(t, [], p + g, u);
    AllFitConcat(t, [], p, g);
    UsersFit(t, p + g, plan.users);
    hide AllFit, EntryFits, Knows;
  }

  lemma EntriesAreFrontAndBack(plan: BootstrapPlan)
    ensures Entries(plan) ==
            (PolicyEntries(plan.policies) + GroupEntries(plan.groups) + UserEntries(plan.users))
            + (MembershipEntries(plan.memberships) + (UserPolicyEntries(plan.userPolicies) + (
               GroupPolicyEntries(plan.groupPolicies) + CredentialEntries(plan.credentials))))
  {
    hide PolicyEntries, GroupEntries, UserEntries, MembershipEntries, UserPolicyEntries, GroupPolicyEntries, CredentialEntries;
    var p, g, u := PolicyEntries(plan.policies), GroupEntries(plan.groups), UserEntries(plan.users);
    var back := MembershipEntries(plan.memberships) + (UserPolicyEntries(plan.userPolicies) + (
      GroupPolicyEntries(plan.groupPolicies) + CredentialEntries(plan.credentials)));
    assert (p + g + u) + back == (p + g) + (u + back);
    assert (p + g) + (u + back) == p + (g + (u + back));
  }

  /** A plan succeeds if and only if its lists fit: every user is the stored identity
      and the one listed before, or new with an email and an external id that are free;
      every link has its ends in the store or in the plan; every key belongs to its
      user, and that user is known when the key is not stored. */
  lemma BootstrapSucceedsExactly(t: Tables, plan: BootstrapPlan)
    ensures Bootstrapped(t, plan).result.Ok? <==> PlanFits(t, plan)
  {
    var p, g, u := PolicyEntries(plan.policies), GroupEntries(plan.groups), UserEntries(plan.users);
    var m, up := MembershipEntries(plan.memberships), UserPolicyEntries(plan.userPolicies);
    var gp, c := GroupPolicyEntries(plan.groupPolicies), CredentialEntries(plan.credentials);
    var front, back := p + g + u, m + (up + (gp + c));
    EntriesAreFrontAndBack(plan);
    hide AllFit, EntryFits, Entries, Bootstrapped, Knows, KnownUser, KnownGroup, KnownPolicy, CredentialFits, PolicyEntries,
      GroupEntries, UserEntries, MembershipEntries, UserPolicyEntries, GroupPolicyEntries, CredentialEntries;
    BootstrapSucceeds(t, plan);
    FrontFits(t, plan);
    BackFits(t, plan, front);
    assert [] + front == front;
    AllFitConcat(t, [], front, back);
  }
}
