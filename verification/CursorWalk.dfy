/** The client side of a listing: following cursors, with a bound. */
module CursorWalks {
  import opened Wrappers
  import opened Keys
  import opened Pagination

  datatype CursorError = Repeated(cursor: string) | TooManyPages(maxPages: nat)

  /** Why a listing failed: its cursors, or one of its requests. */
  datatype ListError<+E> = Pagination(cursor: CursorError) | Request(failure: E)

  class CursorWalk {
    var after: string
    var pages: nat
    const maxPages: nat

    constructor (maxPages: nat)
      ensures after == "" && pages == 0 && this.maxPages == maxPages
    {
      after, pages, this.maxPages := "", 0, maxPages;
    }

    /** One more page: `Ok(true)` when another request with the new `after` is due. An
        accepted page leaves the counter below the bound, so the 32-bit counter of the
        program cannot overflow. */
    method Advance(nextOffset: string) returns (more: Result<bool, CursorError>)
      modifies this
      ensures pages == old(pages) + 1
      ensures more == Verdict(old(after), old(pages), maxPages, nextOffset)
      ensures nextOffset == "" ==> more == Ok(false)
      ensures nextOffset != "" && nextOffset == old(after) ==> more == Err(Repeated(nextOffset))
      ensures nextOffset != "" && nextOffset != old(after) ==>
                more == if pages >= maxPages then Err(TooManyPages(maxPages)) else Ok(true)
      ensures after == if more == Ok(true) then nextOffset else old(after)
      ensures more == Ok(true) ==> pages < maxPages
    {
      pages := pages + 1;
      if nextOffset == "" {
        return Ok(false);
      }
      if nextOffset == after {
        return Err(Repeated(nextOffset));
      }
      if pages >= maxPages {
        return Err(TooManyPages(maxPages));
      }
      after := nextOffset;
      return Ok(true);
    }
  }

  /** What a page answers when `pages` pages came before it. */
  function Verdict(after: string, pages: nat, maxPages: nat, nextOffset: string): Result<bool, CursorError>
  {
    if nextOffset == "" then Ok(false)
    else if nextOffset == after then Err(Repeated(nextOffset))
    else if pages + 1 >= maxPages then Err(TooManyPages(maxPages))
    else Ok(true)
  }

  /** A server is whatever it answers, or fails to answer, to the n-th request with an
      `after` value. */
  type Server<!T, !E> = (nat, string) -> Result<ListResponse<T>, E>

  /** Every page of `server` from the request number `pages` on. */
  function Listed<T, E>(server: Server<T, E>, after: string, pages: nat, maxPages: nat): Result<seq<T>, ListError<E>>
    decreases maxPages - pages
  {
    match server(pages, after)
    case Err(failure) => Err(Request(failure))
    case Ok(page) =>
      match Verdict(after, pages, maxPages, page.nextOffset)
      case Err(error) => Err(ListError.Pagination(error))
      case Ok(false) => Ok(page.results)
      case Ok(true) => Prepended(page.results, Listed(server, page.nextOffset, pages + 1, maxPages))
  }

  /** What a request adds to the items that came before it. */
  lemma OneRequest<T, E>(server: Server<T, E>, items: seq<T>, after: string, pages: nat, maxPages: nat)
    ensures var all := Prepended(items, Listed(server, after, pages, maxPages));
            match server(pages, after)
            case Err(failure) => all == Err(Request(failure))
            case Ok(page) =>
              match Verdict(after, pages, maxPages, page.nextOffset)
              case Err(error) => all == Err(ListError.Pagination(error))
              case Ok(false) => all == Ok(items + page.results)
              case Ok(true) =>
                all == Prepended(items + page.results, Listed(server, page.nextOffset, pages + 1, maxPages))
  {
    var answer := server(pages, after);
    if answer.Ok? && Verdict(after, pages, maxPages, answer.value.nextOffset) == Ok(true) {
      PrependTwice(items, answer.value.results, Listed(server, answer.value.nextOffset, pages + 1, maxPages));
    }
  }

  ghost predicate Fails<T, E>(server: Server<T, E>, request: nat, failure: E)
  {
    exists after: string :: server(request, after) == Err(failure)
  }

  /** `list_user_groups`: against any server the walk ends, after at most
      `maxPages` requests (one when the bound is zero); a request that fails ends it
      with that failure. */
  method CollectPages<T, E>(server: Server<T, E>, maxPages: nat)
    returns (result: Result<seq<T>, ListError<E>>, requests: nat)
    ensures result == Listed(server, "", 0, maxPages)
    ensures 1 <= requests <= if maxPages == 0 then 1 else maxPages
    ensures result.Err? && result.error.Request? ==> Fails(server, requests - 1, result.error.failure)
  {
    hide Listed, Prepended;
    var walk := new CursorWalk(maxPages);
    var items: seq<T> := [];
    PrependNothing(Listed(server, walk.after, walk.pages, maxPages));
    while true
      invariant fresh(walk) && walk.maxPages == maxPages
      invariant walk.pages == 0 || walk.pages < maxPages
      invariant Listed(server, "", 0, maxPages) == Prepended(items, Listed(server, walk.after, walk.pages, maxPages))
      decreases maxPages - walk.pages
    {
      OneRequest(server, items, walk.after, walk.pages, maxPages);
      var answer := server(walk.pages, walk.after);
      if answer.Err? {
        return Err(Request(answer.error)), walk.pages + 1;
      }
      items := items + answer.value.results;
      var more := walk.Advance(answer.value.nextOffset);
      match more {
        case Err(error) => return Err(ListError.Pagination(error)), walk.pages;
        case Ok(false) => return Ok(items), walk.pages;
        case Ok(true) =>
      }
    }
  }

  function Prepended<T, E>(items: seq<T>, result: Result<seq<T>, E>): Result<seq<T>, E>
  {
    match result
    case Err(error) => Err(error)
    case Ok(rest) => Ok(items + rest)
  }

  lemma PrependNothing<T, E>(rest: Result<seq<T>, E>)
    ensures Prepended([], rest) == rest
  {
    if rest.Ok? {
      assert [] + rest.value == rest.value;
    }
  }

  lemma PrependTwice<T, E>(items: seq<T>, page: seq<T>, rest: Result<seq<T>, E>)
    ensures Prepended(items, Prepended(page, rest)) == Prepended(items + page, rest)
  {
    if rest.Ok? {
      assert items + (page + rest.value) == (items + page) + rest.value;
    }
  }

  // ---------------------------------------------------------------------
  // A server that pages one fixed table
  // ---------------------------------------------------------------------

  ghost function Paging<T>(table: map<string, T>, prefix: string, limit: int): Server<Row<T>, ()>
  {
    (request: nat, after: string) => Ok(IntoResponse(PageRows(Rows(table), PageQuery(prefix, after, limit))))
  }

  ghost predicate Pages<T(!new)>(server: Server<Row<T>, ()>, table: map<string, T>, prefix: string, limit: int)
    requires limit >= 1
  {
    forall pages: nat, after: string ::
      server(pages, after) == Ok(IntoResponse(FirstPage(Rows(Matching(table, prefix, after)), limit)))
  }

  lemma PagingServes<T(!new)>(table: map<string, T>, prefix: string, limit: int)
    requires limit >= 1
    ensures Pages(Paging(table, prefix, limit), table, prefix, limit)
  {
    hide Rows, Filtered;
    forall pages: nat, after: string
      ensures Paging(table, prefix, limit)(pages, after) ==
              Ok(IntoResponse(FirstPage(Rows(Matching(table, prefix, after)), limit)))
    {
      PageOfTable(table, PageQuery(prefix, after, limit));
    }
  }

  lemma {:induction false} CollectedFrom<T(!new)>(
      server: Server<Row<T>, ()>, table: map<string, T>, prefix: string, limit: int, after: string,
      pages: nat, maxPages: nat, budget: nat)
    requires limit >= 1 && Pages(server, table, prefix, limit)
    requires budget == if maxPages <= pages then 1 else maxPages - pages
    ensures var all := Rows(Matching(table, prefix, after));
            Listed(server, after, pages, maxPages) ==
            if |all| <= Capacity(budget, limit) then Ok(all) else Err(ListError.Pagination(TooManyPages(maxPages)))
    decreases maxPages - pages
  {
    hide Rows;
    var all := Rows(Matching(table, prefix, after));
    if |all| <= limit {
      assert server(pages, after) == Ok(ListResponse(false, "", all));
    } else {
      MatchingAfterCursor(table, prefix, after, limit);
      var next := all[limit - 1].0;
      BelowIsAsymmetric(after, next);
      assert server(pages, after) == Ok(ListResponse(true, next, all[..limit]));
      if budget > 1 {
        CollectedFrom(server, table, prefix, limit, next, pages + 1, maxPages, budget - 1);
        assert all[..limit] + all[limit..] == all;
      }
    }
  }

  /** The rows that `pages` full pages hold. */
  function Capacity(pages: nat, limit: int): (rows: int)
    requires limit >= 1
    ensures rows >= 0
  {
    if pages == 0 then 0 else limit + Capacity(pages - 1, limit)
  }

  lemma {:induction false} CapacityIsProduct(pages: nat, limit: int)
    requires limit >= 1
    ensures Capacity(pages, limit) == pages * limit
  {
    if pages > 0 {
      CapacityIsProduct(pages - 1, limit);
      assert pages * limit == (pages - 1) * limit + limit;
    }
  }

  /** Against a server that pages a fixed table the walk never sees a repeated
      cursor, and it returns the complete listing exactly when that fits into
      the pages the client is willing to read. */
  lemma CollectIsExact<T(!new)>(table: map<string, T>, prefix: string, limit: int, maxPages: nat)
    requires limit >= 1 && maxPages >= 1 && "" !in table
    ensures var listing := Filtered(Rows(table), prefix, "");
            Listed(Paging(table, prefix, limit), "", 0, maxPages) ==
            if |listing| <= maxPages * limit then Ok(listing) else Err(ListError.Pagination(TooManyPages(maxPages)))
    ensures forall row :: row in Filtered(Rows(table), prefix, "") <==> RowIn(row, table) && StartsWith(row.0, prefix)
  {
    hide Rows, Filtered, Listed, Pages, Paging;
    var server := Paging(table, prefix, limit);
    PagingServes(table, prefix, limit);
    CollectedFrom(server, table, prefix, limit, "", 0, maxPages, maxPages);
    CapacityIsProduct(maxPages, limit);
    FilteredRows(table, prefix, "");
    RowsOfTable(Matching(table, prefix, ""));
  }

  // ---------------------------------------------------------------------
  // A server whose table changes between the requests
  // ---------------------------------------------------------------------

  /** The n-th request reads the table `reads(n)`, or fails. */
  ghost function Changing<T, E>(readAt: nat -> Result<map<string, T>, E>, prefix: string, limit: int): Server<Row<T>, E>
  {
    (request: nat, after: string) =>
      match readAt(request)
      case Err(failure) => Err(failure)
      case Ok(table) => Ok(IntoResponse(PageRows(Rows(table), PageQuery(prefix, after, limit))))
  }

  /** The tables that the requests from number `first` on read. */
  ghost predicate AreReads<T, E>(states: seq<map<string, T>>, readAt: nat -> Result<map<string, T>, E>, first: nat)
  {
    forall i :: 0 <= i < |states| ==> readAt(first + i) == Ok(states[i])
  }

  ghost predicate IsWalk<T, E>(
    rows: seq<Row<T>>, states: seq<map<string, T>>, readAt: nat -> Result<map<string, T>, E>, first: nat,
    prefix: string, after: string, limit: int)
  {
    AreReads(states, readAt, first) && Walk(states, prefix, after, limit) == Some(rows)
  }

  lemma {:induction false} ListedUnderMutation<T(!new), E(!new)>(
      readAt: nat -> Result<map<string, T>, E>, prefix: string, limit: int, after: string, pages: nat, maxPages: nat)
    requires limit >= 1
    ensures var result := Listed(Changing(readAt, prefix, limit), after, pages, maxPages);
            match result
            case Ok(rows) =>
              exists states: seq<map<string, T>> ::
                |states| <= (if maxPages <= pages then 1 else maxPages - pages)
                && IsWalk(rows, states, readAt, pages, prefix, after, limit)
            case Err(Request(failure)) => exists n: nat :: n >= pages && readAt(n) == Err(failure)
            case Err(Pagination(error)) => error == TooManyPages(maxPages)
    decreases maxPages - pages
  {
    hide Rows, PageRows, IncreasingRows;
    if readAt(pages).Ok? {
      var table := readAt(pages).value;
      var page := PageRows(Rows(table), PageQuery(prefix, after, limit));
      assert page.nextOffset.Some? ==> Below(after, page.nextOffset.value) by {
        PageStep(table, prefix, after, limit, page);
      }
      if page.nextOffset.None? {
        assert IsWalk(page.items, [table], readAt, pages, prefix, after, limit);
      } else if pages + 1 < maxPages {
        var next := page.nextOffset.value;
        BelowIsAsymmetric(after, next);
        ListedUnderMutation(readAt, prefix, limit, next, pages + 1, maxPages);
        var rest := Listed(Changing(readAt, prefix, limit), next, pages + 1, maxPages);
        if rest.Ok? {
          var states :| |states| <= maxPages - pages - 1 && IsWalk(rest.value, states, readAt, pages + 1, prefix, next, limit);
          assert ([table] + states)[1..] == states;
          assert IsWalk(page.items + rest.value, [table] + states, readAt, pages, prefix, after, limit);
        }
      } else {
        BelowIsAsymmetric(after, page.nextOffset.value);
      }
    }
  }

  /** Whatever happens to the table between the requests, the client never sees a
      repeated cursor; what it returns is a walk over the tables its requests read,
      with all that `WalkUnderMutation` says about it. */
  lemma CollectUnderMutation<T(!new), E(!new)>(
      readAt: nat -> Result<map<string, T>, E>, prefix: string, limit: int, maxPages: nat)
    requires limit >= 1
    ensures var result := Listed(Changing(readAt, prefix, limit), "", 0, maxPages);
            match result
            case Ok(rows) =>
              exists states: seq<map<string, T>> ::
                |states| <= (if maxPages == 0 then 1 else maxPages)
                && IsWalk(rows, states, readAt, 0, prefix, "", limit)
                && IncreasingRows(rows)
                && (forall row :: row in rows ==> StartsWith(row.0, prefix) && ReadFrom(row, states))
                && (forall key :: key != "" && StartsWith(key, prefix) && AlwaysPresent(key, states) ==> HasKey(rows, key))
            case Err(Request(failure)) => exists n: nat :: readAt(n) == Err(failure)
            case Err(Pagination(error)) => error == TooManyPages(maxPages)
  {
    hide Listed, Changing, Walk, IncreasingRows, StartsWith, AreReads;
    ListedUnderMutation(readAt, prefix, limit, "", 0, maxPages);
    var result := Listed(Changing(readAt, prefix, limit), "", 0, maxPages);
    if result.Ok? {
      var states: seq<map<string, T>> :|
        |states| <= (if maxPages == 0 then 1 else maxPages)
        && IsWalk(result.value, states, readAt, 0, prefix, "", limit);
      WalkUnderMutation(states, prefix, limit);
    }
  }
}
