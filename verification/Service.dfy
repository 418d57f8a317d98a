/** The creates of the API: validation, the insert, and the replay rule that answers a
    repeated create with the stored row. */
module Service {
  import opened Wrappers
  import opened Types
  import opened Tables
  import opened Text
  import opened Keys
  import opened ByteStrings

  datatype ApiError = BadRequest | NotFound | Conflict

  function ToApi(error: StoreError): ApiError
  {
    if error.NotFound? then ApiError.NotFound else Conflict
  }

  /** A conflict is decided from a re-read: the row that matches is the answer, any
      other row and a row that vanished are the conflict. */
  function CreateOrExisting<T>(created: Result<T, StoreError>, reread: Result<T, StoreError>, matches: T -> bool): Result<T, ApiError>
  {
    match created
    case Ok(row) => Ok(row)
    case Err(error) =>
      if !error.AlreadyExists? then Err(ToApi(error))
      else
        match reread
        case Ok(existing) => if matches(existing) then Ok(existing) else Err(Conflict)
        case Err(failure) => if failure.NotFound? then Err(Conflict) else Err(ToApi(failure))
  }

  predicate SameIfGiven(requested: Option<string>, existing: Option<string>)
  {
    requested.None? || requested == existing
  }

  // ---------------------------------------------------------------------
  // Users
  // ---------------------------------------------------------------------

  /** The body of a user create. */
  datatype UserCreation = UserCreation(
    username: string, email: Option<string>, friendlyName: Option<string>, source: Option<string>,
    externalId: Option<string>, encryptedPassword: Option<Bytes>, invite: Option<bool>)

  function ToNewUser(body: UserCreation, now: int): NewUser
  {
    NewUser(body.username, now, OptionalText(body.friendlyName), OptionalText(body.email),
            OptionalText(body.source), OptionalText(body.externalId), body.encryptedPassword)
  }

  predicate SameUser(requested: NewUser, existing: UserRecord)
  {
    && SameIfGiven(requested.friendlyName, existing.friendlyName)
    && SameIfGiven(requested.email, existing.email)
    && SameIfGiven(requested.source, existing.source)
    && SameIfGiven(requested.externalId, existing.externalId)
    && (requested.encryptedPassword.None? || existing.encryptedPassword == requested.encryptedPassword)
  }

  /** The tables after a request, and its answer. */
  datatype Answer<+T> = Answer(tables: Tables, result: Result<T, ApiError>)

  function GetUser(t: Tables, username: string): Result<UserRecord, StoreError>
  {
    if username in t.users then Ok(t.users[username]) else Err(StoreError.NotFound("user", username))
  }

  function CreateUser(t: Tables, body: UserCreation, now: int): Answer<UserRecord>
  {
    if body.invite == Some(true) || !ValidEntityId(body.username) then Answer(t, Err(BadRequest))
    else
      var requested := ToNewUser(body, now);
      var reply := InsertUser(t, requested);
      Answer(reply.tables, CreateOrExisting(
        reply.result, GetUser(reply.tables, body.username), (existing: UserRecord) => SameUser(requested, existing)))
  }

  /** A create that was answered can be replayed in any later state that still has the
      row: it answers the stored row and changes nothing. */
  lemma ReplayedUserCreate(t: Tables, body: UserCreation, now: int, t': Tables, later: int)
    requires CreateUser(t, body, now).result.Ok?
    requires body.username in t'.users && t'.users[body.username] == CreateUser(t, body, now).result.value
    ensures CreateUser(t', body, later) == Answer(t', CreateUser(t, body, now).result)
  {
    hide EmailTaken, ExternalIdTaken, OptionalText, ValidEntityId;
  }

  /** A text the request gives is the stored one; a blank text is not given. */
  predicate Agrees(given: Option<string>, stored: Option<string>)
  {
    OptionalText(given).Some? ==> stored == OptionalText(given)
  }

  /** When a create succeeds: no invitation, a usable name, and a free name, email and
      external id, or a stored row of that name with every value the request gives. */
  lemma UserCreateSucceeds(t: Tables, body: UserCreation, now: int)
    ensures CreateUser(t, body, now).result.Ok? <==>
            && body.invite != Some(true) && ValidEntityId(body.username)
            && if body.username in t.users then
                 var row := t.users[body.username];
                 && Agrees(body.friendlyName, row.friendlyName) && Agrees(body.email, row.email)
                 && Agrees(body.source, row.source) && Agrees(body.externalId, row.externalId)
                 && (body.encryptedPassword.Some? ==> row.encryptedPassword == body.encryptedPassword)
               else
                 && (OptionalText(body.email).Some? ==> !EmailTaken(t.users, OptionalText(body.email).value))
                 && (OptionalText(body.externalId).Some? ==> !ExternalIdTaken(t.users, OptionalText(body.externalId).value))
    ensures CreateUser(t, body, now).result.Err? ==> CreateUser(t, body, now).tables == t
    ensures CreateUser(t, body, now).result.Err? ==>
              CreateUser(t, body, now).result.error ==
              if body.invite == Some(true) || !ValidEntityId(body.username) then BadRequest else Conflict
  {
    hide EmailTaken, ExternalIdTaken, OptionalText, ValidEntityId;
  }

  /** A create of a free name stores the columns of the request. */
  lemma CreatedUserIsRequested(t: Tables, body: UserCreation, now: int)
    requires body.username !in t.users && CreateUser(t, body, now).result.Ok?
    ensures var Answer(t', result) := CreateUser(t, body, now);
            var row := result.value;
            && t' == t.(users := t.users[body.username := row], nextUserId := t.nextUserId + 1)
            && row.username == body.username && row.userId == t.nextUserId + 1 && row.creationDate == now
            && row.friendlyName == OptionalText(body.friendlyName) && row.email == OptionalText(body.email)
            && row.source == OptionalText(body.source) && row.externalId == OptionalText(body.externalId)
            && row.encryptedPassword == body.encryptedPassword
  {
    hide EmailTaken, ExternalIdTaken, OptionalText, ValidEntityId;
  }

  // ---------------------------------------------------------------------
  // Policies: statements compared without their order
  // ---------------------------------------------------------------------

  predicate AtMost(a: string, b: string)
  {
    a == b || Below(a, b)
  }

  ghost predicate InOrder(texts: seq<string>)
  {
    forall i, j :: 0 <= i < j < |texts| ==> AtMost(texts[i], texts[j])
  }

  function Insert(text: string, sorted: seq<string>): seq<string>
  {
    if sorted == [] || AtMost(text, sorted[0]) then [text] + sorted
    else [sorted[0]] + Insert(text, sorted[1..])
  }

  /** `sort_unstable`; any correct sort gives this listing. */
  function Sort(texts: seq<string>): seq<string>
  {
    if texts == [] then [] else Insert(texts[0], Sort(texts[1..]))
  }

  lemma {:induction false} InsertKeepsOrder(text: string, sorted: seq<string>)
    requires InOrder(sorted)
    ensures InOrder(Insert(text, sorted))
    ensures multiset(Insert(text, sorted)) == multiset(sorted) + multiset{text}
  {
    hide Below;
    if sorted == [] || AtMost(text, sorted[0]) {
      forall j | 0 <= j < |sorted|
        ensures AtMost(text, sorted[j])
      {
        if j > 0 && text != sorted[0] && sorted[0] != sorted[j] {
          BelowIsTransitive(text, sorted[0], sorted[j]);
        }
      }
    } else {
      var rest := Insert(text, sorted[1..]);
      assert sorted == [sorted[0]] + sorted[1..];
      InsertKeepsOrder(text, sorted[1..]);
      BelowIsTotal(text, sorted[0]);
      forall j | 0 <= j < |rest|
        ensures AtMost(sorted[0], rest[j])
      {
        assert rest[j] in multiset(rest);
        assert rest[j] == text || rest[j] in sorted[1..];
      }
    }
  }

  lemma {:induction false} SortSorts(texts: seq<string>)
    ensures InOrder(Sort(texts)) && multiset(Sort(texts)) == multiset(texts)
  {
    if texts != [] {
      SortSorts(texts[1..]);
      InsertKeepsOrder(texts[0], Sort(texts[1..]));
      assert texts == [texts[0]] + texts[1..];
    }
  }

  lemma SmallestIsUnique(a: seq<string>, b: seq<string>)
    requires InOrder(a) && InOrder(b) && multiset(a) == multiset(b) && a != [] && b != []
    ensures a[0] == b[0]
  {
    assert a[0] in multiset(b) && b[0] in multiset(a);
    assert AtMost(a[0], b[0]) && AtMost(b[0], a[0]);
    if a[0] != b[0] {
      BelowIsAsymmetric(a[0], b[0]);
    }
  }

  /** An ordered permutation is determined by its elements. */
  lemma {:induction false} OrderedPermutationIsUnique(a: seq<string>, b: seq<string>)
    requires InOrder(a) && InOrder(b) && multiset(a) == multiset(b)
    ensures a == b
  {
    assert |a| == |multiset(a)| == |multiset(b)| == |b|;
    if a != [] {
      SmallestIsUnique(a, b);
      hide AtMost;
      assert a == [a[0]] + a[1..] && b == [b[0]] + b[1..];
      assert multiset(a[1..]) == multiset(a) - multiset{a[0]};
      assert multiset(b[1..]) == multiset(b) - multiset{b[0]};
      OrderedPermutationIsUnique(a[1..], b[1..]);
    }
  }

  lemma SameSortSameElements(a: seq<string>, b: seq<string>)
    ensures Sort(a) == Sort(b) <==> multiset(a) == multiset(b)
  {
    SortSorts(a);
    SortSorts(b);
    if multiset(a) == multiset(b) {
      OrderedPermutationIsUnique(Sort(a), Sort(b));
    }
  }

  /** A statement with its actions in order, serialised. */
  function Canonical(json: Statement -> string, statement: Statement): string
  {
    json(statement.(action := Sort(statement.action)))
  }

  function Texts(json: Statement -> string, statements: seq<Statement>): (texts: seq<string>)
    ensures |texts| == |statements|
    ensures forall i :: 0 <= i < |texts| ==> texts[i] == Canonical(json, statements[i])
  {
    seq(|statements|, i requires 0 <= i < |statements| => Canonical(json, statements[i]))
  }

  method CanonicalStatements(json: Statement -> string, statements: seq<Statement>) returns (canonical: seq<string>)
    ensures canonical == Sort(Texts(json, statements))
  {
    canonical := [];
    for i := 0 to |statements|
      invariant canonical == Texts(json, statements[..i])
    {
      var statement := statements[i];
      statement := statement.(action := Sort(statement.action));
      canonical := canonical + [json(statement)];
    }
    assert statements[..|statements|] == statements;
    canonical := Sort(canonical);
  }

  /** What a statement says, without the order of its actions. */
  datatype Form = Form(effect: Effect, resource: string, actions: multiset<string>, condition: Option<Condition>)

  function FormOf(statement: Statement): Form
  {
    Form(statement.effect, statement.resource, multiset(statement.action), statement.condition)
  }

  function Forms(statements: seq<Statement>): (forms: seq<Form>)
    ensures |forms| == |statements|
    ensures forall i :: 0 <= i < |forms| ==> forms[i] == FormOf(statements[i])
  {
    seq(|statements|, i requires 0 <= i < |statements| => FormOf(statements[i]))
  }

  ghost predicate Injective(json: Statement -> string)
  {
    forall a, b :: json(a) == json(b) ==> a == b
  }

  lemma CanonicalIsForm(json: Statement -> string, a: Statement, b: Statement)
    requires Injective(json)
    ensures Canonical(json, a) == Canonical(json, b) <==> FormOf(a) == FormOf(b)
  {
    SameSortSameElements(a.action, b.action);
    hide Sort;
  }

  /** Two listings in which `x` and `y` sit at the same places hold them equally often. */
  lemma {:induction false} CountsAgree<A, B>(xs: seq<A>, ys: seq<B>, x: A, y: B)
    requires |xs| == |ys|
    requires forall i :: 0 <= i < |xs| ==> (xs[i] == x <==> ys[i] == y)
    ensures multiset(xs)[x] == multiset(ys)[y]
  {
    if xs != [] {
      CountsAgree(xs[1..], ys[1..], x, y);
      assert xs == [xs[0]] + xs[1..] && ys == [ys[0]] + ys[1..];
    }
  }

  lemma TextCount(json: Statement -> string, statements: seq<Statement>, one: Statement)
    requires Injective(json)
    ensures multiset(Texts(json, statements))[Canonical(json, one)] == multiset(Forms(statements))[FormOf(one)]
  {
    forall i | 0 <= i < |statements|
      ensures Texts(json, statements)[i] == Canonical(json, one) <==> Forms(statements)[i] == FormOf(one)
    {
      CanonicalIsForm(json, statements[i], one);
    }
    CountsAgree(Texts(json, statements), Forms(statements), Canonical(json, one), FormOf(one));
  }

  /** Comparing canonical statements compares, as multisets, what the statements say. */
  lemma PolicyComparison(json: Statement -> string, a: seq<Statement>, b: seq<Statement>)
    requires Injective(json)
    ensures Sort(Texts(json, a)) == Sort(Texts(json, b)) <==> multiset(Forms(a)) == multiset(Forms(b))
  {
    var ta, tb, fa, fb := multiset(Texts(json, a)), multiset(Texts(json, b)), multiset(Forms(a)), multiset(Forms(b));
    SameSortSameElements(Texts(json, a), Texts(json, b));
    hide Sort, FormOf, Canonical;
    forall i | 0 <= i < |a + b|
      ensures ta[Canonical(json, (a + b)[i])] == fa[FormOf((a + b)[i])]
      ensures tb[Canonical(json, (a + b)[i])] == fb[FormOf((a + b)[i])]
    {
      TextCount(json, a, (a + b)[i]);
      TextCount(json, b, (a + b)[i]);
    }
    if fa == fb {
      forall text
        ensures ta[text] == tb[text]
      {
        if text in ta || text in tb {
          var i := IndexOf(Texts(json, a) + Texts(json, b), text);
          assert (Texts(json, a) + Texts(json, b))[i] == Canonical(json, (a + b)[i]);
        }
      }
    }
    if ta == tb {
      forall form
        ensures fa[form] == fb[form]
      {
        if form in fa || form in fb {
          var i := IndexOf(Forms(a) + Forms(b), form);
          assert (Forms(a) + Forms(b))[i] == FormOf((a + b)[i]);
        }
      }
    }
  }

  ghost function IndexOf<T>(items: seq<T>, item: T): (i: nat)
    requires item in items
    ensures i < |items| && items[i] == item
  {
    var i :| 0 <= i < |items| && items[i] == item;
    i
  }

  predicate SamePolicy(json: Statement -> string, requested: PolicyRecord, existing: PolicyRecord)
  {
    && Sort(Texts(json, requested.statement)) == Sort(Texts(json, existing.statement))
    && SameIfGiven(requested.acl, existing.acl)
  }

  function GetPolicy(t: Tables, name: string): Result<PolicyRecord, StoreError>
  {
    if name in t.policies then Ok(t.policies[name]) else Err(StoreError.NotFound("policy", name))
  }

  /** `create_policy` behind the validation of its statements. */
  function CreatePolicy(t: Tables, json: Statement -> string, requested: PolicyRecord): Answer<PolicyRecord>
  {
    if !ValidEntityId(requested.name) then Answer(t, Err(BadRequest))
    else
      var reply := InsertPolicy(t, requested);
      Answer(reply.tables, CreateOrExisting(
        reply.result, GetPolicy(reply.tables, requested.name),
        (existing: PolicyRecord) => SamePolicy(json, requested, existing)))
  }

  /** A create of a stored name answers the stored row exactly when the statements
      say the same in any order and a given ACL agrees; otherwise it conflicts. Either
      way nothing changes. */
  lemma ReplayedPolicyCreate(t: Tables, json: Statement -> string, requested: PolicyRecord)
    requires Injective(json) && ValidEntityId(requested.name) && requested.name in t.policies
    ensures var existing := t.policies[requested.name];
            var same := && multiset(Forms(requested.statement)) == multiset(Forms(existing.statement))
                        && (requested.acl.Some? ==> existing.acl == requested.acl);
            CreatePolicy(t, json, requested) == Answer(t, if same then Ok(existing) else Err(Conflict))
  {
    PolicyComparison(json, requested.statement, t.policies[requested.name].statement);
    hide Sort, Texts, Forms, ValidEntityId;
  }

  /** A create of a usable name that is free succeeds and stores the request; an
      unusable name is refused. */
  lemma FreePolicyIsStored(t: Tables, json: Statement -> string, requested: PolicyRecord)
    requires requested.name !in t.policies
    ensures CreatePolicy(t, json, requested) ==
            if ValidEntityId(requested.name)
            then Answer(t.(policies := t.policies[requested.name := requested]), Ok(requested))
            else Answer(t, Err(BadRequest))
  {
    hide ValidEntityId, Sort, Texts;
  }
}
