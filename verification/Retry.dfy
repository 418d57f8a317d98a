/** `send_with_retry`: one request, sent until an attempt is not worth repeating. An
    attempt that fails may or may not have been executed by the server. */
module Retry {
  import opened Wrappers
  import opened Tables
  import opened Service

  datatype Method = GET | HEAD | PUT | DELETE | OPTIONS | POST | PATCH

  predicate IsIdempotent(verb: Method)
  {
    verb in {GET, HEAD, PUT, DELETE, OPTIONS}
  }

  datatype TransportError = Connect | Timeout | Request | Other

  /** A status with which the service answers no request of its own: 401, the 408 of
      its request timeout, a 5xx. */
  type Refusal = status: nat | status !in {200, 201, 204, 400, 404, 409} witness 401

  /** What becomes of one attempt. Without a connection nothing is executed; a refusal
      and a broken exchange leave it open. */
  datatype Attempt =
    | Answered
    | Refused(status: Refusal, executed: bool)
    | Broken(error: TransportError, reached: bool)
  {
    predicate Executed() {
      match this
      case Answered => true
      case Refused(_, executed) => executed
      case Broken(error, reached) => !error.Connect? && reached
    }
  }

  /** What the client sees: the service's own answer, a refusal, or no reply. */
  datatype Outcome<+T> = Delivered(answer: T) | Rejected(status: Refusal) | Failed(error: TransportError)

  /** A request as the server executes it: the tables after it, and its answer. */
  type Operation<!T> = Tables -> (Tables, T)

  class Server {
    var tables: Tables
    var executions: nat
    var attempts: nat

    constructor (tables: Tables)
      ensures this.tables == tables && executions == 0 && attempts == 0
    {
      this.tables, executions, attempts := tables, 0, 0;
    }

    /** One attempt against the server. */
    method Send<T>(op: Operation<T>, attempt: Attempt) returns (outcome: Outcome<T>)
      modifies this
      ensures attempts == old(attempts) + 1
      ensures attempt.Executed() ==> executions == old(executions) + 1 && tables == op(old(tables)).0
      ensures !attempt.Executed() ==> executions == old(executions) && tables == old(tables)
      ensures outcome == OutcomeOf(op, old(tables), attempt)
    {
      attempts := attempts + 1;
      outcome := OutcomeOf(op, tables, attempt);
      if attempt.Executed() {
        executions := executions + 1;
        tables := op(tables).0;
      }
    }
  }

  function OutcomeOf<T>(op: Operation<T>, t: Tables, attempt: Attempt): Outcome<T>
  {
    match attempt
    case Answered => Delivered(op(t).1)
    case Refused(status, _) => Rejected(status)
    case Broken(error, _) => Failed(error)
  }

  /** The rule of the client: a 5xx and a broken exchange are worth repeating for an
      idempotent method, a failed connection for every method. */
  predicate Retryable<T>(verb: Method, outcome: Outcome<T>)
  {
    match outcome
    case Delivered(_) => false
    case Rejected(status) => IsIdempotent(verb) && status >= 500
    case Failed(error) => error.Connect? || (IsIdempotent(verb) && (error.Timeout? || error.Request?))
  }

  /** The same, of the attempt itself. */
  predicate WorthRepeating(verb: Method, attempt: Attempt)
  {
    match attempt
    case Answered => false
    case Refused(status, _) => IsIdempotent(verb) && status >= 500
    case Broken(error, _) => error.Connect? || (IsIdempotent(verb) && (error.Timeout? || error.Request?))
  }

  /** Attempt by attempt: a GET, HEAD, PUT, DELETE or OPTIONS is repeated after a failed
      connection, a timeout, a transport error of the request, and every 5xx; a POST or
      PATCH after a failed connection only; nothing after an answer. */
  lemma RepeatedAttempts(verb: Method, status: Refusal, happened: bool)
    ensures WorthRepeating(verb, Broken(Connect, happened))
    ensures verb in {GET, HEAD, PUT, DELETE, OPTIONS} ==>
              && WorthRepeating(verb, Broken(Timeout, happened)) && WorthRepeating(verb, Broken(Request, happened))
              && !WorthRepeating(verb, Broken(Other, happened))
              && (WorthRepeating(verb, Refused(status, happened)) <==> status >= 500)
    ensures verb in {POST, PATCH} ==>
              && !WorthRepeating(verb, Broken(Timeout, happened)) && !WorthRepeating(verb, Broken(Request, happened))
              && !WorthRepeating(verb, Broken(Other, happened)) && !WorthRepeating(verb, Refused(status, happened))
    ensures !WorthRepeating(verb, Answered)
    ensures Answered.Executed() && !Broken(Connect, happened).Executed()
    ensures Refused(status, happened).Executed() == happened && Broken(Timeout, happened).Executed() == happened
  {
  }

  /** An answer comes within the budget. */
  ghost predicate Reaches(verb: Method, schedule: nat -> Attempt, maxRetries: nat)
  {
    exists k: nat :: k <= maxRetries && schedule(k).Answered? && forall j: nat :: j < k ==> WorthRepeating(verb, schedule(j))
  }

  function Repeated<T>(op: Operation<T>, times: nat, t: Tables): Tables
  {
    if times == 0 then t else op(Repeated(op, times - 1, t)).0
  }

  /** For every schedule of attempts: no more than `maxRetries + 1` of them; a method
      that is not idempotent is executed at most once; the tables are those of the
      executions; an answer is that of the last execution; and an answer within the
      budget reaches the client. */
  method SendWithRetry<T>(server: Server, verb: Method, op: Operation<T>, schedule: nat -> Attempt, maxRetries: nat)
    returns (outcome: Outcome<T>)
    requires server.executions == 0 && server.attempts == 0
    modifies server
    ensures 1 <= server.attempts <= maxRetries + 1
    ensures server.executions <= server.attempts
    ensures !IsIdempotent(verb) ==> server.executions <= 1
    ensures server.tables == Repeated(op, server.executions, old(server.tables))
    ensures outcome.Delivered? ==>
              server.executions >= 1
              && outcome.answer == op(Repeated(op, server.executions - 1, old(server.tables))).1
    ensures forall j :: 0 <= j < server.attempts - 1 ==> WorthRepeating(verb, schedule(j))
    ensures server.attempts == maxRetries + 1 || !WorthRepeating(verb, schedule(server.attempts - 1))
    ensures outcome.Delivered? <==> schedule(server.attempts - 1).Answered?
    ensures Reaches(verb, schedule, maxRetries) ==> outcome.Delivered?
  {
    var attempt := 0;
    while true
      invariant 0 <= attempt <= maxRetries
      invariant server.attempts == attempt && server.executions <= server.attempts
      invariant forall j :: 0 <= j < attempt ==> WorthRepeating(verb, schedule(j))
      invariant !IsIdempotent(verb) ==> server.executions == 0
      invariant server.tables == Repeated(op, server.executions, old(server.tables))
      decreases maxRetries - attempt
    {
      outcome := server.Send(op, schedule(attempt));
      if Retryable(verb, outcome) && attempt < maxRetries {
        attempt := attempt + 1;
        continue;
      }
      LastAttempt(verb, schedule, attempt, maxRetries);
      return;
    }
  }

  /** An answer within the budget is where the attempts end. */
  lemma LastAttempt(verb: Method, schedule: nat -> Attempt, last: nat, maxRetries: nat)
    requires last <= maxRetries
    requires forall j :: 0 <= j < last ==> WorthRepeating(verb, schedule(j))
    requires last == maxRetries || !WorthRepeating(verb, schedule(last))
    ensures Reaches(verb, schedule, maxRetries) ==> schedule(last).Answered?
  {
    if k: nat :|
      k <= maxRetries && schedule(k).Answered? && forall j: nat :: j < k ==> WorthRepeating(verb, schedule(j))
    {
      assert last == k;
    }
  }

  // ---------------------------------------------------------------------
  // The requests of the client
  // ---------------------------------------------------------------------

  /** A lookup reads the tables as they are. */
  function Read(): Operation<Tables>
  {
    (t: Tables) => (t, t)
  }

  function PutMembership(group: string, username: string): Operation<Result<(), ApiError>>
  {
    (t: Tables) =>
      var reply := AddMembership(t, group, username);
      (reply.tables, if reply.result.Ok? then Ok(()) else Err(ApiError.NotFound))
  }

  function DeleteUserRequest(username: string): Operation<Result<(), ApiError>>
  {
    (t: Tables) =>
      var reply := DeleteUser(t, username);
      (reply.tables, if reply.result.Ok? then Ok(()) else Err(ApiError.NotFound))
  }

  lemma {:induction false} RepeatedRead(t: Tables, times: nat)
    ensures Repeated(Read(), times, t) == t
  {
    if times > 0 {
      RepeatedRead(t, times - 1);
    }
  }

  /** A membership put, executed any number of times, is one put: same tables, same
      answer. */
  lemma {:induction false} RepeatedPut(t: Tables, group: string, username: string, times: nat)
    requires times >= 1
    ensures var op, once := PutMembership(group, username), AddMembership(t, group, username);
            && Repeated(op, times, t) == once.tables
            && (op(Repeated(op, times - 1, t)).1.Ok? <==> once.result.Ok?)
  {
    var op := PutMembership(group, username);
    if times == 1 {
      assert Repeated(op, 0, t) == t;
    } else {
      RepeatedPut(t, group, username, times - 1);
      var once := op(t).0;
      assert once.groupMembers + {(group, username)} == once.groupMembers || once == t;
    }
  }

  /** A user delete, executed any number of times, is one delete; only the first
      execution can answer 204, every later one answers 404. */
  lemma {:induction false} RepeatedDelete(t: Tables, username: string, times: nat)
    requires times >= 1
    ensures var op := DeleteUserRequest(username);
            && Repeated(op, times, t) == DeleteUser(t, username).tables
            && username !in Repeated(op, times, t).users
            && op(Repeated(op, times - 1, t)).1 ==
               if times == 1 && username in t.users then Ok(()) else Err(ApiError.NotFound)
  {
    var op := DeleteUserRequest(username);
    hide CascadeDeleteUser;
    if times == 1 {
      assert Repeated(op, 0, t) == t;
      GoneAfterDelete(t, username);
    } else {
      RepeatedDelete(t, username, times - 1);
    }
  }

  lemma GoneAfterDelete(t: Tables, username: string)
    ensures username !in DeleteUser(t, username).tables.users
  {
  }
}
