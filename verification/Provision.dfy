/** Provisioning a user over requests that can fail at any point. The client changes
    the remote store step by step, and every request is sent with retries: its attempts
    may be refused, lost before the server executed them, or lost afterwards. */
module Provision {
  import opened Wrappers
  import opened Types
  import opened Tables
  import opened Text
  import opened Service
  import opened ByteStrings
  import Retry

  /** Why a request got no answer of the service. */
  datatype Cause = Status(status: Retry.Refusal) | Transport(error: Retry.TransportError)

  datatype ClientError =
    | Unanswered(cause: Cause)
    | BadRequest
    | NotFound
    | AlreadyExists
    | NonUnique
    | InvalidId

  datatype User = User(
    username: string, creationDate: int, friendlyName: Option<string>, email: Option<string>,
    source: Option<string>, externalId: Option<string>, encryptedPassword: Option<Bytes>)

  function ToWire(record: UserRecord): User
  {
    User(record.username, record.creationDate, record.friendlyName, record.email, record.source,
         record.externalId, record.encryptedPassword)
  }

  datatype EnsureUserSpec = EnsureUserSpec(
    externalId: string, username: string, email: Option<string>, friendlyName: Option<string>, source: string,
    groups: seq<string>)

  datatype EnsuredUser = EnsuredUser(user: User, created: bool)

  function FromApi(error: ApiError): ClientError
  {
    match error
    case BadRequest => ClientError.BadRequest
    case NotFound => ClientError.NotFound
    case Conflict => ClientError.AlreadyExists
  }

  function FromOutcome<T>(outcome: Retry.Outcome<Result<T, ApiError>>): Result<T, ClientError>
  {
    match outcome
    case Delivered(Ok(value)) => Ok(value)
    case Delivered(Err(error)) => Err(FromApi(error))
    case Rejected(status) => Err(Unanswered(Status(status)))
    case Failed(error) => Err(Unanswered(Transport(error)))
  }

  /** What becomes of the attempts of the n-th request. */
  type Fate = (nat, Retry.Method) -> (nat -> Retry.Attempt)

  ghost predicate AllAnswered(fate: Fate, maxRetries: nat)
  {
    forall n: nat, verb: Retry.Method :: Retry.Reaches(verb, fate(n, verb), maxRetries)
  }

  function PostUser(body: UserCreation, now: int): Retry.Operation<Result<UserRecord, ApiError>>
  {
    (t: Tables) => (CreateUser(t, body, now).tables, CreateUser(t, body, now).result)
  }

  /** The authorization server as one client sees it: its tables, the time, and what
      happens to the requests still to come. */
  class Remote {
    var tables: Tables
    var sent: nat
    const fate: Fate
    const maxRetries: nat
    const now: int
    /** Set when the client does not know what became of the compensating delete. */
    var rollbackLost: bool
    /** Set when a create was executed and its answer did not arrive. */
    var createLost: bool

    constructor (tables: Tables, fate: Fate, maxRetries: nat, now: int)
      ensures this.tables == tables && this.fate == fate && this.maxRetries == maxRetries && this.now == now
      ensures !rollbackLost && !createLost
    {
      this.tables, this.fate, this.maxRetries, this.now, sent := tables, fate, maxRetries, now, 0;
      rollbackLost, createLost := false, false;
    }

    ghost predicate Answers()
      reads this
    {
      AllAnswered(fate, maxRetries)
    }

    /** A GET of the user list: the rows as they were when it was answered. */
    method Lookup() returns (r: Result<map<string, UserRecord>, ClientError>)
      modifies this`sent
      ensures r.Ok? ==> r.value == tables.users
      ensures r.Err? ==> r.error.Unanswered? && !Answers()
    {
      hide Retry.Repeated;
      var server := new Retry.Server(tables);
      var outcome := Retry.SendWithRetry(server, Retry.GET, Retry.Read(), fate(sent, Retry.GET), maxRetries);
      sent := sent + 1;
      if server.executions >= 1 {
        Retry.RepeatedRead(tables, server.executions - 1);
      }
      match outcome {
        case Delivered(read) => return Ok(read.users);
        case Rejected(status) => return Err(Unanswered(Status(status)));
        case Failed(error) => return Err(Unanswered(Transport(error)));
      }
    }

    /** `GET /auth/users?external_id=`. A blank value never reaches the server. */
    method FindByExternalId(externalId: string) returns (r: Result<Option<User>, ClientError>)
      modifies this`sent
      ensures r == Ok(None) ==> Trim(externalId) == "" || !ExternalIdTaken(tables.users, Trim(externalId))
      ensures r.Ok? && r.value.Some? ==> exists name | name in tables.users ::
                Shows(r.value.value, tables.users[name]) && tables.users[name].externalId == Some(Trim(externalId))
      ensures r.Err? ==> r.error.Unanswered? && !Answers()
    {
      if Trim(externalId) == "" {
        return Ok(None);
      }
      var users := Lookup();
      if users.Err? {
        return Err(users.error);
      }
      var results: seq<User> := [];
      if name :| name in users.value && users.value[name].externalId == Some(Trim(externalId)) {
        results := [ToWire(users.value[name])];
      }
      r := AtMostOne(results);
    }

    /** `GET /auth/users?email=` */
    method FindByEmail(email: string) returns (r: Result<Option<User>, ClientError>)
      modifies this`sent
      ensures r == Ok(None) ==> Trim(email) == "" || !EmailTaken(tables.users, Trim(email))
      ensures r.Ok? && r.value.Some? ==> exists name | name in tables.users ::
                Shows(r.value.value, tables.users[name]) && tables.users[name].email == Some(Trim(email))
      ensures r.Ok? && r.value.Some? ==> Trim(email) != ""
      ensures r.Err? ==> r.error.Unanswered? && !Answers()
    {
      if Trim(email) == "" {
        return Ok(None);
      }
      var users := Lookup();
      if users.Err? {
        return Err(users.error);
      }
      var results: seq<User> := [];
      if name :| name in users.value && users.value[name].email == Some(Trim(email)) {
        results := [ToWire(users.value[name])];
      }
      r := AtMostOne(results);
    }

    /** `POST /auth/users`, executed at most once. Without an answer it may have been. */
    method Create(body: UserCreation) returns (r: Result<User, ClientError>)
      modifies this`sent, this`tables, this`createLost
      ensures r.Err? && r.error.Unanswered? ==>
                && !Answers()
                && (tables == old(tables) || (createLost && tables == CreateUser(old(tables), body, now).tables))
      ensures r.Ok? || !r.error.Unanswered? ==>
                var answer := CreateUser(old(tables), body, now);
                && tables == answer.tables
                && r == match answer.result { case Ok(row) => Ok(ToWire(row)) case Err(error) => Err(FromApi(error)) }
      ensures createLost ==> old(createLost) || (r.Err? && r.error.Unanswered?)
    {
      hide CreateUser;
      ghost var t := tables;
      var server := new Retry.Server(tables);
      var outcome := Retry.SendWithRetry(server, Retry.POST, PostUser(body, now), fate(sent, Retry.POST), maxRetries);
      assert server.executions <= 1;
      assert Retry.Repeated(PostUser(body, now), 0, t) == t;
      assert Retry.Repeated(PostUser(body, now), 1, t) == CreateUser(t, body, now).tables;
      tables := server.tables;
      sent := sent + 1;
      if server.executions >= 1 && !outcome.Delivered? {
        createLost := true;
      }
      match FromOutcome(outcome) {
        case Ok(row) => return Ok(ToWire(row));
        case Err(error) => return Err(error);
      }
    }

    /** `PUT /auth/groups/{groupId}/members/{userId}`. Without an answer the membership
        may be there or not. */
    method AddToGroup(group: string, username: string) returns (r: Result<(), ClientError>)
      modifies this`sent, this`tables
      ensures r.Ok? ==> AddMembership(old(tables), group, username) == Reply(tables, Ok(()))
      ensures tables == old(tables) || tables == AddMembership(old(tables), group, username).tables
      ensures r == Err(ClientError.NotFound) ==>
                tables == old(tables) && AddMembership(tables, group, username).result.Err?
      ensures r == Err(InvalidId) <==> !ValidEntityId(group) || !ValidEntityId(username)
      ensures r.Err? ==> r.error in {InvalidId, ClientError.NotFound} || (r.error.Unanswered? && !Answers())
    {
      hide AddMembership, ValidEntityId, Retry.Repeated;
      if !ValidEntityId(group) || !ValidEntityId(username) {
        return Err(InvalidId);
      }
      ghost var t := tables;
      var server := new Retry.Server(tables);
      var op := Retry.PutMembership(group, username);
      var outcome := Retry.SendWithRetry(server, Retry.PUT, op, fate(sent, Retry.PUT), maxRetries);
      PutEffect(t, group, username, server.executions);
      tables := server.tables;
      sent := sent + 1;
      r := FromOutcome(outcome);
    }

    /** `DELETE /auth/users/{userId}`. Without an answer the user may be gone or not. */
    method Delete(username: string) returns (r: Result<(), ClientError>)
      modifies this`sent, this`tables
      ensures r.Ok? || r == Err(ClientError.NotFound) ==>
                tables == DeleteUser(old(tables), username).tables && username !in tables.users
      ensures tables == old(tables) || tables == DeleteUser(old(tables), username).tables
      ensures r == Err(InvalidId) <==> !ValidEntityId(username)
      ensures r.Err? ==> r.error in {InvalidId, ClientError.NotFound} || (r.error.Unanswered? && !Answers())
    {
      hide DeleteUser, ValidEntityId, Retry.Repeated;
      if !ValidEntityId(username) {
        return Err(InvalidId);
      }
      ghost var t := tables;
      var server := new Retry.Server(tables);
      var op := Retry.DeleteUserRequest(username);
      var outcome := Retry.SendWithRetry(server, Retry.DELETE, op, fate(sent, Retry.DELETE), maxRetries);
      DeleteEffect(t, username, server.executions);
      tables := server.tables;
      sent := sent + 1;
      r := FromOutcome(outcome);
    }

    /** `roll_back_create`: best effort; a 404 counts as done, because a delete that is
        repeated answers it. Done or lost, the store saw one delete or none. */
    method RollBack(username: string)
      modifies this`sent, this`tables, this`rollbackLost
      ensures !rollbackLost ==> tables == DeleteUser(old(tables), username).tables && username !in tables.users
      ensures tables == old(tables) || tables == DeleteUser(old(tables), username).tables
      ensures rollbackLost ==> old(rollbackLost) || !ValidEntityId(username) || !Answers()
    {
      var r := Delete(username);
      if r.Err? && r.error != ClientError.NotFound {
        rollbackLost := true;
      }
    }
  }

  /** The tables after a membership put that was executed any number of times, and its
      last answer. */
  lemma PutEffect(t: Tables, group: string, username: string, executions: nat)
    ensures var op, once := Retry.PutMembership(group, username), AddMembership(t, group, username);
            && Retry.Repeated(op, executions, t) == (if executions == 0 then t else once.tables)
            && (executions >= 1 ==>
                 (op(Retry.Repeated(op, executions - 1, t)).1 == if once.result.Ok? then Ok(()) else Err(ApiError.NotFound)))
            && (once.result.Err? ==> once.tables == t)
            && (once.result.Ok? ==> once == Reply(once.tables, Ok(())))
  {
    if executions >= 1 {
      Retry.RepeatedPut(t, group, username, executions);
    }
  }

  lemma DeleteEffect(t: Tables, username: string, executions: nat)
    ensures var op := Retry.DeleteUserRequest(username);
            && Retry.Repeated(op, executions, t) == (if executions == 0 then t else DeleteUser(t, username).tables)
            && (executions >= 1 ==> op(Retry.Repeated(op, executions - 1, t)).1 in {Ok(()), Err(ApiError.NotFound)})
    ensures username !in DeleteUser(t, username).tables.users
  {
    if executions >= 1 {
      Retry.RepeatedDelete(t, username, executions);
    }
  }

  function AtMostOne(results: seq<User>): Result<Option<User>, ClientError>
  {
    if |results| == 0 then Ok(None) else if |results| == 1 then Ok(Some(results[0])) else Err(NonUnique)
  }

  // ---------------------------------------------------------------------
  // What provisioning is meant to do
  // ---------------------------------------------------------------------

  /** Another identity holds the email; none of the stored rows is this one. */
  predicate EmailHeld(t: Tables, spec: EnsureUserSpec)
  {
    OptionalText(spec.email).Some? && EmailTaken(t.users, OptionalText(spec.email).value)
  }

  function Creation(spec: EnsureUserSpec, withEmail: bool): UserCreation
  {
    UserCreation(spec.username, if withEmail then spec.email else None, spec.friendlyName, Some(spec.source),
                 Some(spec.externalId), None, None)
  }

  /** The new row: without the email exactly when another identity holds it. */
  function NewRow(t: Tables, spec: EnsureUserSpec, now: int): UserRecord
  {
    ToNewUser(Creation(spec, !EmailHeld(t, spec)), now).WithId(t.nextUserId + 1)
  }

  /** The groups of the spec that exist, as memberships. */
  function Joined(t: Tables, spec: EnsureUserSpec, upTo: nat): set<(string, string)>
    requires upTo <= |spec.groups|
  {
    set i | 0 <= i < upTo && spec.groups[i] in t.groups :: (spec.groups[i], spec.username)
  }

  function WithGroups(t: Tables, spec: EnsureUserSpec, upTo: nat): Tables
    requires upTo <= |spec.groups|
  {
    t.(groupMembers := t.groupMembers + Joined(t, spec, upTo))
  }

  function WithRow(t: Tables, spec: EnsureUserSpec, now: int): Tables
  {
    t.(users := t.users[spec.username := NewRow(t, spec, now)], nextUserId := t.nextUserId + 1)
  }

  /** One new row, in exactly the groups of the spec that exist. */
  function Provisioned(t: Tables, spec: EnsureUserSpec, now: int, upTo: nat): Tables
    requires upTo <= |spec.groups|
  {
    WithGroups(WithRow(t, spec, now), spec, upTo)
  }

  /** The server answers the create of this spec with a row it already has: the name is
      taken by a row with every value the spec gives. */
  predicate Replayed(t: Tables, spec: EnsureUserSpec)
  {
    && ValidEntityId(spec.username) && spec.username in t.users
    && var row := t.users[spec.username];
       && row.externalId == Some(spec.externalId)
       && (OptionalText(spec.friendlyName).Some? ==> row.friendlyName == OptionalText(spec.friendlyName))
       && (OptionalText(spec.email).Some? ==> row.email == OptionalText(spec.email))
       && (OptionalText(Some(spec.source)).Some? ==> row.source == OptionalText(Some(spec.source)))
  }

  /** Identities as the login flow passes them: trimmed and not blank. */
  predicate KnownForm(spec: EnsureUserSpec)
  {
    spec.externalId != "" && Trimmed(spec.externalId)
  }

  /** Nothing but the identity counter moved. */
  predicate Restored(before: Tables, after: Tables)
  {
    && before.nextUserId <= after.nextUserId <= before.nextUserId + 1
    && after == before.(nextUserId := after.nextUserId)
  }

  /** No row of anyone else changed: every old user row and every old membership is as
      it was, and so is every other table. */
  ghost predicate Bystanders(before: Tables, after: Tables, username: string)
  {
    && (forall name | name in before.users :: name in after.users && after.users[name] == before.users[name])
    && after.users.Keys <= before.users.Keys + {username}
    && (forall row | row in after.groupMembers :: row in before.groupMembers || row.1 == username)
    && before.groupMembers <= after.groupMembers
    && after == before.(users := after.users, nextUserId := after.nextUserId, groupMembers := after.groupMembers)
  }

  lemma ExternalIdIsKept(spec: EnsureUserSpec)
    requires KnownForm(spec)
    ensures Trim(spec.externalId) == spec.externalId && OptionalText(Some(spec.externalId)) == Some(spec.externalId)
  {
    TrimIsTrimmed(spec.externalId);
  }

  /** The answer to the first create, when no row has the identity: success exactly
      for a free name and a free email, and a conflict for a taken one. */
  lemma CreateAnswers(t: Tables, spec: EnsureUserSpec, withEmail: bool, now: int)
    requires KnownForm(spec) && !ExternalIdTaken(t.users, spec.externalId)
    ensures var answer := CreateUser(t, Creation(spec, withEmail), now);
            && (ValidEntityId(spec.username) && spec.username !in t.users && !(withEmail && EmailHeld(t, spec)) ==>
                 var row := ToNewUser(Creation(spec, withEmail), now).WithId(t.nextUserId + 1);
                 answer == Answer(t.(users := t.users[spec.username := row], nextUserId := t.nextUserId + 1), Ok(row)))
            && (!ValidEntityId(spec.username) ==> answer == Answer(t, Err(ApiError.BadRequest)))
            && (ValidEntityId(spec.username) && (spec.username in t.users || (withEmail && EmailHeld(t, spec))) ==>
                 answer == Answer(t, Err(Conflict)))
  {
    ExternalIdIsKept(spec);
    hide EmailTaken, OptionalText, ValidEntityId;
  }

  /** The answer to the first create when a row has the identity: nothing changes, and
      it is a success exactly for a replay. */
  lemma CreateOfStored(t: Tables, spec: EnsureUserSpec, now: int)
    requires KnownForm(spec) && ExternalIdTaken(t.users, spec.externalId)
    ensures var answer := CreateUser(t, Creation(spec, true), now);
            && answer.tables == t
            && (answer.result.Ok? <==> Replayed(t, spec))
            && (answer.result.Ok? ==> answer.result.value == t.users[spec.username])
  {
    ExternalIdIsKept(spec);
    hide EmailTaken, OptionalText, ValidEntityId, ExternalIdTaken;
  }

  lemma ReplayedIsStored(t: Tables, spec: EnsureUserSpec)
    requires KnownForm(spec) && Replayed(t, spec)
    ensures ExternalIdTaken(t.users, spec.externalId)
  {
    ExternalIdIsKept(spec);
    hide OptionalText, ValidEntityId;
    assert t.users[spec.username].externalId == Some(spec.externalId);
  }

  /** A create of this spec changes nothing, or adds the new row. */
  lemma CreateEffect(t: Tables, spec: EnsureUserSpec, withEmail: bool, now: int)
    requires KnownForm(spec) && (withEmail || (!ExternalIdTaken(t.users, spec.externalId) && EmailHeld(t, spec)))
    ensures var after := CreateUser(t, Creation(spec, withEmail), now).tables;
            after == t
            || (&& !ExternalIdTaken(t.users, spec.externalId) && ValidEntityId(spec.username)
                && spec.username !in t.users && after == WithRow(t, spec, now))
  {
    if ExternalIdTaken(t.users, spec.externalId) {
      CreateOfStored(t, spec, now);
    } else {
      CreateAnswers(t, spec, withEmail, now);
    }
    hide CreateUser, EmailHeld, ValidEntityId, ExternalIdTaken;
  }

  // ---------------------------------------------------------------------
  // The client
  // ---------------------------------------------------------------------

  /** `email_holder`: the user that holds the email, if it is another identity. */
  method EmailHolder(remote: Remote, spec: EnsureUserSpec) returns (r: Result<Option<User>, ClientError>)
    modifies remote`sent
    ensures r.Ok? && !ExternalIdTaken(remote.tables.users, spec.externalId) ==>
              (r.value.Some? <==> EmailHeld(remote.tables, spec))
    ensures r.Err? ==> r.error.Unanswered? && !remote.Answers()
  {
    if spec.email.None? {
      return Ok(None);
    }
    var found := remote.FindByEmail(spec.email.value);
    if found.Err? {
      return Err(found.error);
    }
    if found.value.Some? && found.value.value.externalId != Some(spec.externalId) {
      return Ok(found.value);
    }
    return Ok(None);
  }

  /** The first half: the row, without the email when another identity holds it. A
      second conflict is a real username collision. A row that was there before is
      reported as created exactly when the server took the create for a replay. */
  method CreateRow(remote: Remote, spec: EnsureUserSpec) returns (r: Result<EnsuredUser, ClientError>)
    requires KnownForm(spec) && !remote.createLost
    modifies remote`sent, remote`tables, remote`createLost
    ensures r.Ok? && !ExternalIdTaken(old(remote.tables).users, spec.externalId) ==>
              && ValidEntityId(spec.username) && spec.username !in old(remote.tables).users
              && r.value == EnsuredUser(ToWire(NewRow(old(remote.tables), spec, remote.now)), true)
              && remote.tables == WithRow(old(remote.tables), spec, remote.now)
              && spec.username in remote.tables.users
              && FreshRow(old(remote.tables), remote.tables.users[spec.username], spec, remote.now)
              && Shows(r.value.user, remote.tables.users[spec.username])
    ensures r.Ok? && !r.value.created ==>
              remote.tables == old(remote.tables) && StoredIdentity(remote.tables, spec, r.value.user)
    ensures r.Ok? && r.value.created ==>
              && (spec.username in old(remote.tables).users <==> Replayed(old(remote.tables), spec))
              && (ExternalIdTaken(old(remote.tables).users, spec.externalId) <==> Replayed(old(remote.tables), spec))
    ensures r.Ok? && r.value.created && Replayed(old(remote.tables), spec) ==>
              remote.tables == old(remote.tables) && Shows(r.value.user, remote.tables.users[spec.username])
    ensures remote.Answers() && Replayed(old(remote.tables), spec) ==> r.Ok? && r.value.created
    ensures r.Err? && !remote.createLost ==> remote.tables == old(remote.tables)
    ensures remote.createLost ==> r.Err? && !remote.Answers()
    ensures remote.tables == old(remote.tables)
            || (&& !ExternalIdTaken(old(remote.tables).users, spec.externalId) && spec.username !in old(remote.tables).users
                && remote.tables == WithRow(old(remote.tables), spec, remote.now))
    ensures r == Err(ClientError.AlreadyExists) && !ExternalIdTaken(old(remote.tables).users, spec.externalId) ==>
              spec.username in old(remote.tables).users
    ensures r.Err? && remote.Answers() && !ExternalIdTaken(old(remote.tables).users, spec.externalId) ==>
              !ValidEntityId(spec.username) || spec.username in old(remote.tables).users
  {
    ghost var t := remote.tables;
    if !ExternalIdTaken(t.users, spec.externalId) {
      CreateAnswers(t, spec, true, remote.now);
      CreateAnswers(t, spec, false, remote.now);
      if EmailHeld(t, spec) {
        CreateEffect(t, spec, false, remote.now);
      }
    } else {
      CreateOfStored(t, spec, remote.now);
    }
    if Replayed(t, spec) {
      ReplayedIsStored(t, spec);
    }
    CreateEffect(t, spec, true, remote.now);
    ExternalIdIsKept(spec);
    NewRowIsFresh(t, spec, remote.now);
    hide FreshRow, Shows, CreateUser, ToNewUser, EmailHeld, AllAnswered, ValidEntityId, EmailTaken, OptionalText, SameUser, Replayed;
    var creation := Creation(spec, true);
    var created := remote.Create(creation);
    if created.Err? {
      if created.error != ClientError.AlreadyExists {
        return Err(created.error);
      }
      var found := remote.FindByExternalId(spec.externalId);
      if found.Err? {
        return Err(found.error);
      }
      if found.value.Some? {
        return Ok(EnsuredUser(found.value.value, false));
      }
      var holder := EmailHolder(remote, spec);
      if holder.Err? {
        return Err(holder.error);
      }
      if holder.value.None? {
        return Err(ClientError.AlreadyExists);
      }
      creation := creation.(email := None);
      created := remote.Create(creation);
      if created.Err? {
        return Err(created.error);
      }
    }
    return Ok(EnsuredUser(created.value, true));
  }

  /** The user is the stored row of the identity. */
  predicate StoredIdentity(t: Tables, spec: EnsureUserSpec, user: User)
  {
    exists name | name in t.users :: Shows(user, t.users[name]) && t.users[name].externalId == Some(spec.externalId)
  }

  ghost predicate SomeGroups(before: Tables, after: Tables, spec: EnsureUserSpec)
  {
    exists i :: 0 <= i <= |spec.groups| && after == WithGroups(before, spec, i)
  }

  /** The second half: the memberships, or the row deleted when one fails, whether this
      login made the row or not. A membership that was executed without an answer goes
      with the row. */
  method JoinGroups(remote: Remote, spec: EnsureUserSpec, username: string) returns (r: Result<(), ClientError>)
    requires username == spec.username && username in remote.tables.users && ValidEntityId(username)
    requires !remote.rollbackLost
    modifies remote`sent, remote`tables, remote`rollbackLost
    ensures r.Ok? ==> remote.tables == WithGroups(old(remote.tables), spec, |spec.groups|)
    ensures r.Ok? ==> !remote.rollbackLost && forall i :: 0 <= i < |spec.groups| ==> ValidEntityId(spec.groups[i])
    ensures r.Err? && !remote.rollbackLost ==> remote.tables == DeleteUser(old(remote.tables), username).tables
    ensures r.Err? ==>
              remote.tables == DeleteUser(old(remote.tables), username).tables || SomeGroups(old(remote.tables), remote.tables, spec)
    ensures r.Err? ==> r.error !in {ClientError.NotFound, ClientError.AlreadyExists}
    ensures r.Err? && remote.Answers() ==>
              !remote.rollbackLost && exists i :: 0 <= i < |spec.groups| && !ValidEntityId(spec.groups[i])
  {
    ghost var t := remote.tables;
    NoGroupsYet(t, spec);
    hide WithGroups, ValidEntityId, AllAnswered, AddMembership, DeleteUser, Joined;
    for i := 0 to |spec.groups|
      invariant remote.tables == WithGroups(t, spec, i) && !remote.rollbackLost
      invariant forall j :: 0 <= j < i ==> ValidEntityId(spec.groups[j])
    {
      var added := remote.AddToGroup(spec.groups[i], username);
      OneMoreGroup(t, spec, i);
      if added.Err? && added.error != ClientError.AlreadyExists && added.error != ClientError.NotFound {
        ghost var joined := if remote.tables == WithGroups(t, spec, i) then i else i + 1;
        assert remote.tables == WithGroups(t, spec, joined);
        DeleteTakesGroups(t, spec, joined);
        remote.RollBack(username);
        return Err(added.error);
      }
    }
    return Ok(());
  }

  /** The create, for a caller that looked the identity up and found nothing. When
      every request is answered it succeeds for a usable name that is free and groups
      with usable names. For a caller that did not look, a stored row that the server
      takes for a replay is reported as created, and joins the groups; when a group has
      an unusable name, the user that was there before is deleted. */
  method CreateUserWithGroups(remote: Remote, spec: EnsureUserSpec) returns (r: Result<EnsuredUser, ClientError>)
    requires KnownForm(spec) && Valid(remote.tables) && !remote.rollbackLost && !remote.createLost
    modifies remote`sent, remote`tables, remote`rollbackLost, remote`createLost
    ensures !ExternalIdTaken(old(remote.tables).users, spec.externalId) ==>
              Kept(old(remote.tables), remote.tables, spec, remote.now, r, remote.rollbackLost, remote.createLost)
    ensures !ExternalIdTaken(old(remote.tables).users, spec.externalId) && r.Ok? ==> r.value.created
    ensures !ExternalIdTaken(old(remote.tables).users, spec.externalId) ==>
              && (r == Err(ClientError.AlreadyExists) ==> spec.username in old(remote.tables).users)
              && (remote.Answers() && Usable(old(remote.tables), spec) ==> r.Ok?)
    ensures r.Ok? && !r.value.created ==>
              remote.tables == old(remote.tables) && StoredIdentity(remote.tables, spec, r.value.user)
    ensures r.Ok? && r.value.created ==>
              (spec.username in old(remote.tables).users <==> Replayed(old(remote.tables), spec))
    ensures Replayed(old(remote.tables), spec) && r.Ok? && r.value.created ==>
              && Shows(r.value.user, old(remote.tables).users[spec.username])
              && remote.tables == WithGroups(old(remote.tables), spec, |spec.groups|)
    ensures Replayed(old(remote.tables), spec) && remote.Answers() ==>
              if forall i :: 0 <= i < |spec.groups| ==> ValidEntityId(spec.groups[i]) then r.Ok? && r.value.created
              else r.Err? && remote.tables == DeleteUser(old(remote.tables), spec.username).tables
    ensures remote.Answers() ==> !remote.rollbackLost && !remote.createLost
  {
    ghost var t := remote.tables;
    if spec.username !in t.users {
      AfterNewRow(t, spec, remote.now);
      ProvisionedIsSpelled(t, spec, remote.now);
    }
    assert spec.username in t.users ==> t.users[spec.username].username == spec.username;
    assert Replayed(t, spec) ==> ValidEntityId(spec.username) && spec.username in t.users;
    SameTablesSpareOthers(t, spec.username);
    hide Valid, Provisioned, WithGroups, WithRow, AllAnswered, ValidEntityId, Bystanders, ExternalIdTaken, StoredIdentity,
      DeleteUser, Replayed, NewRow, Spelled;
    var row := CreateRow(remote, spec);
    if row.Err? || !row.value.created {
      return row;
    }
    assert row.value.user.username == spec.username by { assert NewRow(t, spec, remote.now).username == spec.username; }
    var joined := JoinGroups(remote, spec, row.value.user.username);
    if joined.Err? {
      return Err(joined.error);
    }
    return row;
  }

  /** The columns of the new row: as the spec gives them, optional text trimmed, and no
      email when another row holds it. */
  ghost predicate FreshRow(before: Tables, row: UserRecord, spec: EnsureUserSpec, now: int)
  {
    && row.username == spec.username && row.userId == before.nextUserId + 1 && row.creationDate == now
    && row.friendlyName == OptionalText(spec.friendlyName)
    && row.source == OptionalText(Some(spec.source))
    && row.externalId == Some(spec.externalId)
    && row.encryptedPassword == None
    && row.email == if exists name | name in before.users ::
                         OptionalText(spec.email).Some? && before.users[name].email == OptionalText(spec.email)
                    then None else OptionalText(spec.email)
  }

  /** The wire form has every column but the id. */
  predicate Shows(user: User, row: UserRecord)
  {
    && user.username == row.username && user.creationDate == row.creationDate && user.friendlyName == row.friendlyName
    && user.email == row.email && user.source == row.source && user.externalId == row.externalId
    && user.encryptedPassword == row.encryptedPassword
  }

  /** The new row, the answer that shows it, and its groups: those of the spec that are
      stored. */
  ghost predicate Spelled(before: Tables, after: Tables, user: User, spec: EnsureUserSpec, now: int)
  {
    && spec.username in after.users && FreshRow(before, after.users[spec.username], spec, now)
    && Shows(user, after.users[spec.username])
    && forall group :: (group, spec.username) in after.groupMembers <==> group in spec.groups && group in before.groups
  }

  lemma NewRowIsFresh(t: Tables, spec: EnsureUserSpec, now: int)
    requires KnownForm(spec)
    ensures FreshRow(t, NewRow(t, spec, now), spec, now) && Shows(ToWire(NewRow(t, spec, now)), NewRow(t, spec, now))
  {
    ExternalIdIsKept(spec);
    assert EmailHeld(t, spec) <==> exists name | name in t.users ::
        OptionalText(spec.email).Some? && t.users[name].email == OptionalText(spec.email);
    assert OptionalText(None) == None;
    hide OptionalText, EmailHeld;
  }

  lemma ProvisionedIsSpelled(t: Tables, spec: EnsureUserSpec, now: int)
    requires KnownForm(spec) && Valid(t) && spec.username !in t.users
    ensures Spelled(t, Provisioned(t, spec, now, |spec.groups|), ToWire(NewRow(t, spec, now)), spec, now)
  {
    var after := Provisioned(t, spec, now, |spec.groups|);
    NewRowIsFresh(t, spec, now);
    hide NewRow, FreshRow, Shows, KeyedUsers, UniqueIds, UniqueEmails, UniqueExternalIds;
    forall group
      ensures (group, spec.username) in after.groupMembers <==> group in spec.groups && group in t.groups
    {
      if group in spec.groups && group in t.groups {
        var i :| 0 <= i < |spec.groups| && spec.groups[i] == group;
        assert (spec.groups[i], spec.username) in Joined(t, spec, |spec.groups|);
      }
    }
  }

  /** What provisioning promises when no row has the identity. */
  ghost predicate Kept(
    before: Tables, after: Tables, spec: EnsureUserSpec, now: int, r: Result<EnsuredUser, ClientError>,
    rollbackLost: bool, createLost: bool)
  {
    && Bystanders(before, after, spec.username)
    && match r
       case Ok(user) =>
         && spec.username !in before.users && user.user == ToWire(NewRow(before, spec, now))
         && after == Provisioned(before, spec, now, |spec.groups|)
         && Spelled(before, after, user.user, spec, now)
       case Err(_) =>
         && (!rollbackLost && !createLost ==> Restored(before, after))
         && (Restored(before, after) || PartlyDone(before, after, spec, now, rollbackLost))
  }

  /** The new row with some of its groups; with none of them when only the answer to
      the create was lost. */
  ghost predicate PartlyDone(before: Tables, after: Tables, spec: EnsureUserSpec, now: int, rollbackLost: bool)
  {
    exists i :: 0 <= i <= (if rollbackLost then |spec.groups| else 0) && after == Provisioned(before, spec, now, i)
  }

  /** A name that can be used and is free, and groups with names that can be used. */
  predicate Usable(t: Tables, spec: EnsureUserSpec)
  {
    && ValidEntityId(spec.username) && spec.username !in t.users
    && forall i :: 0 <= i < |spec.groups| ==> ValidEntityId(spec.groups[i])
  }

  lemma AfterNewRow(t: Tables, spec: EnsureUserSpec, now: int)
    requires Valid(t) && spec.username !in t.users
    ensures var added := WithRow(t, spec, now);
            && spec.username in added.users
            && added == Provisioned(t, spec, now, 0)
            && DeleteUser(added, spec.username).tables == t.(nextUserId := t.nextUserId + 1)
    ensures forall i :: 0 <= i <= |spec.groups| ==>
              && Bystanders(t, Provisioned(t, spec, now, i), spec.username)
              && WithGroups(WithRow(t, spec, now), spec, i) == Provisioned(t, spec, now, i)
  {
    NoGroupsYet(WithRow(t, spec, now), spec);
    RollBackRestores(t, spec, now, 0);
    hide Valid, NewRow, DeleteUser;
  }

  lemma SameTablesSpareOthers(t: Tables, username: string)
    ensures forall counter: nat :: Bystanders(t, t.(nextUserId := counter), username)
  {
  }

  lemma NoGroupsYet(t: Tables, spec: EnsureUserSpec)
    ensures WithGroups(t, spec, 0) == t
  {
    assert Joined(t, spec, 0) == {};
    assert t.groupMembers + {} == t.groupMembers;
  }

  lemma OneMoreGroup(t: Tables, spec: EnsureUserSpec, i: nat)
    requires i < |spec.groups| && spec.username in t.users
    ensures var before, after := WithGroups(t, spec, i), WithGroups(t, spec, i + 1);
            var reply := AddMembership(before, spec.groups[i], spec.username);
            after == reply.tables && (reply.result.Err? ==> after == before)
  {
    var more := Joined(t, spec, i + 1);
    if spec.groups[i] in t.groups {
      assert more == Joined(t, spec, i) + {(spec.groups[i], spec.username)};
      assert t.groupMembers + more == (t.groupMembers + Joined(t, spec, i)) + {(spec.groups[i], spec.username)};
    } else {
      assert more == Joined(t, spec, i);
    }
  }

  /** A delete takes the memberships that were added with it. */
  lemma DeleteTakesGroups(t: Tables, spec: EnsureUserSpec, i: nat)
    requires i <= |spec.groups| && spec.username in t.users
    ensures DeleteUser(WithGroups(t, spec, i), spec.username).tables == DeleteUser(t, spec.username).tables
  {
    var with_, without := DeleteUser(WithGroups(t, spec, i), spec.username).tables, DeleteUser(t, spec.username).tables;
    assert with_.groupMembers == without.groupMembers;
  }

  /** The compensating delete undoes the create and its memberships. */
  lemma RollBackRestores(t: Tables, spec: EnsureUserSpec, now: int, i: nat)
    requires Valid(t) && i <= |spec.groups| && spec.username !in t.users
    ensures DeleteUser(Provisioned(t, spec, now, i), spec.username).tables == t.(nextUserId := t.nextUserId + 1)
  {
    hide NewRow, KeyedUsers, UniqueIds, UniqueEmails, UniqueExternalIds;
    DeleteTakesGroups(WithRow(t, spec, now), spec, i);
    var after := DeleteUser(WithRow(t, spec, now), spec.username).tables;
    assert after.users == t.users;
    assert after.groupMembers == t.groupMembers;
    assert after.userPolicies == t.userPolicies;
    assert after.credentials == t.credentials;
    assert after.externalPrincipals == t.externalPrincipals;
  }

  /** `ensure_user`, whatever becomes of the attempts of its requests: when nothing is
      created nothing changed; when a user is created it is one new row in its existing
      groups; an error leaves users and memberships as they were unless the answer to
      the create or to the compensating delete was lost, and then at most the new row
      with some of its groups; nobody else's row ever changes. */
  method EnsureUser(remote: Remote, spec: EnsureUserSpec) returns (r: Result<EnsuredUser, ClientError>)
    requires KnownForm(spec) && Valid(remote.tables) && !remote.rollbackLost && !remote.createLost
    modifies remote`sent, remote`tables, remote`rollbackLost, remote`createLost
    ensures r.Ok? && !r.value.created ==>
              remote.tables == old(remote.tables) && StoredIdentity(remote.tables, spec, r.value.user)
    ensures r.Err? || r.value.created ==>
              Kept(old(remote.tables), remote.tables, spec, remote.now, r, remote.rollbackLost, remote.createLost)
    ensures remote.Answers() && Usable(old(remote.tables), spec) ==> r.Ok?
    ensures remote.Answers() ==> !remote.rollbackLost && !remote.createLost
  {
    ExternalIdIsKept(spec);
    SameTablesSpareOthers(remote.tables, spec.username);
    hide Valid, Provisioned, AllAnswered, ValidEntityId, NewRow, Bystanders, Spelled;
    var found := remote.FindByExternalId(spec.externalId);
    if found.Err? {
      return Err(found.error);
    }
    if found.value.Some? {
      return Ok(EnsuredUser(found.value.value, false));
    }
    r := CreateUserWithGroups(remote, spec);
  }

  /** The rows that a caller who does not look would see reported as created: every user
      that was provisioned with its email, and no user that had to go without it. */
  lemma ProvisionedIsReplayed(t: Tables, spec: EnsureUserSpec, now: int, i: nat)
    requires KnownForm(spec) && ValidEntityId(spec.username) && i <= |spec.groups|
    ensures Replayed(Provisioned(t, spec, now, i), spec) <==> !EmailHeld(t, spec)
  {
    ExternalIdIsKept(spec);
    hide EmailTaken, ValidEntityId;
  }
}
