/** Keyset pagination: `prefix`, exclusive `after`, and one row of overfetch. */
module Pagination {
  import opened Wrappers
  import opened Keys

  const DEFAULT_PAGE := 100
  const MAX_PAGE := 1000

  datatype PaginationParams = PaginationParams(prefix: Option<string>, after: Option<string>, amount: Option<int>)

  datatype PageQuery = PageQuery(prefix: string, after: string, limit: int) {
    /** One row more than asked for, so that the cursor can be derived. */
    function FetchLimit(): int { limit + 1 }
  }

  function OrEmpty(text: Option<string>): string {
    match text
    case Some(value) => value
    case None => ""
  }

  function Normalize(params: PaginationParams): (query: PageQuery)
    ensures 1 <= query.limit <= 1000
    ensures params.amount.None? ==> query.limit == 100
    ensures params.amount.Some? && 1 <= params.amount.value <= 1000 ==> query.limit == params.amount.value
    ensures params.amount.Some? && !(1 <= params.amount.value <= 1000) ==> query.limit == 1000
    ensures if params.prefix.None? then query.prefix == "" else query.prefix == params.prefix.value
    ensures if params.after.None? then query.after == "" else query.after == params.after.value
  {
    var limit := match params.amount
      case None => DEFAULT_PAGE
      case Some(amount) => if 1 <= amount <= MAX_PAGE then amount else MAX_PAGE;
    PageQuery(OrEmpty(params.prefix), OrEmpty(params.after), limit)
  }

  datatype PageOf<+T> = PageOf(items: seq<T>, nextOffset: Option<string>)

  /** The page of a `limit + 1` fetch. */
  function FromOverfetch<T>(rows: seq<T>, limit: int, key: T -> string): PageOf<T>
  {
    var limit := if limit < 0 then 0 else limit;
    if |rows| > limit then
      var kept := rows[..limit];
      PageOf(kept, if kept == [] then None else Some(key(kept[|kept| - 1])))
    else
      PageOf(rows, None)
  }

  /** The wire form; `hasMore` follows `nextOffset`. */
  datatype ListResponse<+T> = ListResponse(hasMore: bool, nextOffset: string, results: seq<T>)

  function IntoResponse<T>(page: PageOf<T>): ListResponse<T>
  {
    ListResponse(page.nextOffset.Some?, OrEmpty(page.nextOffset), page.items)
  }

  // ---------------------------------------------------------------------
  // Listings: rows with their sort key
  // ---------------------------------------------------------------------

  type Row<T> = (string, T)

  ghost predicate IncreasingRows<T>(rows: seq<Row<T>>)
  {
    forall i, j :: 0 <= i < j < |rows| ==> Below(rows[i].0, rows[j].0)
  }

  ghost predicate HasKey<T>(rows: seq<Row<T>>, key: string)
  {
    exists row :: row in rows && row.0 == key
  }

  ghost predicate RowIn<T>(row: Row<T>, table: map<string, T>)
  {
    row.0 in table && table[row.0] == row.1
  }

  /** A map iterated in key order. */
  ghost function Rows<T>(table: map<string, T>): (rows: seq<Row<T>>)
  {
    var keys := Sorted(table.Keys);
    assert forall i :: 0 <= i < |keys| ==> keys[i] in Elements(keys);
    seq(|keys|, i requires 0 <= i < |keys| => (keys[i], table[keys[i]]))
  }

  lemma RowsOfTable<T>(table: map<string, T>)
    ensures IncreasingRows(Rows(table))
    ensures forall row :: row in Rows(table) <==> RowIn(row, table)
  {
    var keys, rows := Sorted(table.Keys), Rows(table);
    forall row
      ensures row in rows <==> RowIn(row, table)
    {
      if row in rows {
        var i :| 0 <= i < |rows| && rows[i] == row;
        assert keys[i] in Elements(keys);
      }
      if RowIn(row, table) {
        assert row.0 in Elements(keys);
        var i :| 0 <= i < |keys| && keys[i] == row.0;
        assert rows[i] == row;
      }
    }
  }

  ghost function KeysOf<T>(rows: seq<Row<T>>): seq<string>
  {
    seq(|rows|, i requires 0 <= i < |rows| => rows[i].0)
  }

  /** The rows of a table in key order are the only increasing listing of it. */
  lemma IncreasingRowsAreUnique<T>(a: seq<Row<T>>, b: seq<Row<T>>)
    requires IncreasingRows(a) && IncreasingRows(b)
    requires forall row :: row in a <==> row in b
    ensures a == b
  {
    KeysAreElements(a);
    KeysAreElements(b);
    IncreasingListingIsUnique(KeysOf(a), KeysOf(b));
    forall i | 0 <= i < |a|
      ensures a[i] == b[i]
    {
      assert a[i] in b;
      var j :| 0 <= j < |b| && b[j] == a[i];
      assert KeysOf(a)[i] == KeysOf(b)[i] && KeysOf(a)[j] == KeysOf(b)[j];
      BelowIsIrreflexive(a[i].0);
      assert !(i < j) && !(j < i);
    }
  }

  lemma KeysAreElements<T>(rows: seq<Row<T>>)
    ensures IncreasingRows(rows) ==> Increasing(KeysOf(rows))
    ensures forall key :: key in Elements(KeysOf(rows)) <==> HasKey(rows, key)
  {
    forall key | HasKey(rows, key)
      ensures key in KeysOf(rows)
    {
      var i :| 0 <= i < |rows| && rows[i].0 == key;
      assert KeysOf(rows)[i] == key;
    }
  }

  /** The rows behind position `count` are those with a larger key. */
  lemma TailIsAbove<T>(rows: seq<Row<T>>, count: nat)
    requires IncreasingRows(rows) && 1 <= count <= |rows|
    ensures IncreasingRows(rows[count..])
    ensures forall row :: row in rows[count..] <==> row in rows && Below(rows[count - 1].0, row.0)
  {
    var cursor := rows[count - 1].0;
    forall row
      ensures row in rows[count..] <==> row in rows && Below(cursor, row.0)
    {
      if row in rows[count..] {
        var i :| 0 <= i < |rows[count..]| && rows[count..][i] == row;
        assert rows[count + i] == row;
      }
      if row in rows && Below(cursor, row.0) {
        var i :| 0 <= i < |rows| && rows[i] == row;
        BelowIsAsymmetric(cursor, row.0);
        assert rows[count..][i - count] == row;
      }
    }
  }

  predicate Selects(prefix: string, after: string, key: string)
  {
    StartsWith(key, prefix) && Below(after, key)
  }

  function Filtered<T>(rows: seq<Row<T>>, prefix: string, after: string): seq<Row<T>>
  {
    if rows == [] then []
    else (if Selects(prefix, after, rows[0].0) then [rows[0]] else []) + Filtered(rows[1..], prefix, after)
  }

  function Take<T>(rows: seq<T>, count: int): seq<T>
  {
    if 0 <= count < |rows| then rows[..count] else rows
  }

  /** `page_sorted`, with the keys still beside the items. */
  function PageRows<T>(sorted: seq<Row<T>>, query: PageQuery): PageOf<Row<T>>
  {
    FromOverfetch(Take(Filtered(sorted, query.prefix, query.after), query.FetchLimit()), query.limit, (row: Row<T>) => row.0)
  }

  function Items<T>(rows: seq<Row<T>>): seq<T>
  {
    seq(|rows|, i requires 0 <= i < |rows| => rows[i].1)
  }

  function PageSorted<T>(sorted: seq<Row<T>>, query: PageQuery): PageOf<T>
  {
    var page := PageRows(sorted, query);
    PageOf(Items(page.items), page.nextOffset)
  }

  // ---------------------------------------------------------------------
  // What one page holds
  // ---------------------------------------------------------------------

  ghost function Matching<T>(table: map<string, T>, prefix: string, after: string): map<string, T>
  {
    map key | key in table && Selects(prefix, after, key) :: table[key]
  }

  lemma {:induction false} FilteredKeepsOrder<T>(rows: seq<Row<T>>, prefix: string, after: string)
    requires IncreasingRows(rows)
    ensures IncreasingRows(Filtered(rows, prefix, after))
    ensures forall row :: row in Filtered(rows, prefix, after) <==> row in rows && Selects(prefix, after, row.0)
  {
    if rows != [] {
      TailIsAbove(rows, 1);
      assert rows == [rows[0]] + rows[1..];
      FilteredKeepsOrder(rows[1..], prefix, after);
      var rest := Filtered(rows[1..], prefix, after);
      assert IncreasingRows([rows[0]] + rest) by {
        assert forall i :: 0 <= i < |rest| ==> rest[i] in rest;
      }
    }
  }

  /** Filtering the iteration is iterating the filtered table. */
  lemma FilteredRows<T>(table: map<string, T>, prefix: string, after: string)
    ensures Filtered(Rows(table), prefix, after) == Rows(Matching(table, prefix, after))
  {
    RowsOfTable(table);
    RowsOfTable(Matching(table, prefix, after));
    FilteredKeepsOrder(Rows(table), prefix, after);
    IncreasingRowsAreUnique(Filtered(Rows(table), prefix, after), Rows(Matching(table, prefix, after)));
  }

  /** The first page of a listing: its cursor is the last row of the page exactly
      when more rows follow. */
  ghost function FirstPage<T>(all: seq<Row<T>>, limit: int): PageOf<Row<T>>
    requires limit >= 1
  {
    if |all| <= limit then PageOf(all, None) else PageOf(all[..limit], Some(all[limit - 1].0))
  }

  lemma PageOfTable<T>(table: map<string, T>, query: PageQuery)
    requires query.limit >= 1
    ensures PageRows(Rows(table), query) == FirstPage(Rows(Matching(table, query.prefix, query.after)), query.limit)
  {
    FilteredRows(table, query.prefix, query.after);
  }

  /** A page on the wire: the first rows that match, and a cursor, which says the same
      as `hasMore`, when there are others. */
  lemma WirePage<T>(table: map<string, T>, query: PageQuery)
    requires query.limit >= 1
    ensures var all := Rows(Matching(table, query.prefix, query.after));
            var page := IntoResponse(PageSorted(Rows(table), query));
            && (page.hasMore <==> |all| > query.limit) && (page.hasMore <==> page.nextOffset != "")
            && |page.results| == (if page.hasMore then query.limit else |all|)
            && (forall i :: 0 <= i < |page.results| ==> page.results[i] == all[i].1)
            && (page.hasMore ==> page.nextOffset == all[query.limit - 1].0)
  {
    hide PageRows, Rows, Matching, IncreasingRows;
    var all := Rows(Matching(table, query.prefix, query.after));
    PageOfTable(table, query);
    if |all| > query.limit {
      MatchingAfterCursor(table, query.prefix, query.after, query.limit);
      assert all[query.limit - 1].0 != "";
    }
  }

  /** What is left after a page is what a query from its cursor selects. */
  lemma MatchingAfterCursor<T>(table: map<string, T>, prefix: string, after: string, count: nat)
    requires 1 <= count <= |Rows(Matching(table, prefix, after))|
    ensures var all := Rows(Matching(table, prefix, after));
            && Below(after, all[count - 1].0)
            && Rows(Matching(table, prefix, all[count - 1].0)) == all[count..]
  {
    var all := Rows(Matching(table, prefix, after));
    RowsOfTable(Matching(table, prefix, after));
    assert all[count - 1] in all;
    var cursor := all[count - 1].0;
    RowsOfTable(Matching(table, prefix, cursor));
    TailIsAbove(all, count);
    forall row
      ensures row in all[count..] <==> RowIn(row, Matching(table, prefix, cursor))
    {
      if Below(cursor, row.0) {
        BelowIsTransitive(after, cursor, row.0);
      }
    }
    IncreasingRowsAreUnique(Rows(Matching(table, prefix, cursor)), all[count..]);
  }

  // ---------------------------------------------------------------------
  // A walk over tables that change between the page reads
  // ---------------------------------------------------------------------

  /** The rows a client collects when the i-th page is read from `states[i]`, or
      `None` when the last of these reads does not end the walk. */
  ghost function Walk<T>(states: seq<map<string, T>>, prefix: string, after: string, limit: int): Option<seq<Row<T>>>
  {
    if states == [] then None
    else
      var page := PageRows(Rows(states[0]), PageQuery(prefix, after, limit));
      match page.nextOffset
      case None => if |states| == 1 then Some(page.items) else None
      case Some(next) =>
        match Walk(states[1..], prefix, next, limit)
        case None => None
        case Some(rest) => Some(page.items + rest)
  }

  ghost predicate ReadFrom<T>(row: Row<T>, states: seq<map<string, T>>)
  {
    exists i :: 0 <= i < |states| && RowIn(row, states[i])
  }

  ghost predicate AlwaysPresent<T>(key: string, states: seq<map<string, T>>)
  {
    forall i :: 0 <= i < |states| ==> key in states[i]
  }

  /** The rows of a first page come in order; the others are beyond its cursor. */
  lemma FirstPageSplits<T>(all: seq<Row<T>>, limit: int, page: PageOf<Row<T>>)
    requires IncreasingRows(all) && limit >= 1 && page == FirstPage(all, limit)
    ensures IncreasingRows(page.items)
    ensures forall row :: row in page.items ==> row in all
    ensures page.nextOffset.Some? ==>
              page.items != [] && page.items[|page.items| - 1].0 == page.nextOffset.value
    ensures forall row :: row in all && row !in page.items ==>
                            page.nextOffset.Some? && Below(page.nextOffset.value, row.0)
  {
    if |all| > limit {
      TailIsAbove(all, limit);
      assert all == page.items + all[limit..];
    }
  }

  /** What a page read from `table` promises to the rest of the walk. */
  lemma PageStep<T>(table: map<string, T>, prefix: string, after: string, limit: int, page: PageOf<Row<T>>)
    requires limit >= 1 && page == PageRows(Rows(table), PageQuery(prefix, after, limit))
    ensures IncreasingRows(page.items)
    ensures forall row :: row in page.items ==> Selects(prefix, after, row.0) && RowIn(row, table)
    ensures page.nextOffset.Some? ==>
              && page.items != [] && page.items[|page.items| - 1].0 == page.nextOffset.value
              && Below(after, page.nextOffset.value)
    ensures forall key :: key in table && Selects(prefix, after, key) && !HasKey(page.items, key) ==>
                            page.nextOffset.Some? && Selects(prefix, page.nextOffset.value, key)
  {
    var matching := Matching(table, prefix, after);
    var all := Rows(matching);
    PageOfTable(table, PageQuery(prefix, after, limit));
    RowsOfTable(matching);
    FirstPageSplits(all, limit, page);
    forall key | key in table && Selects(prefix, after, key) && !HasKey(page.items, key)
      ensures page.nextOffset.Some? && Selects(prefix, page.nextOffset.value, key)
    {
      assert RowIn((key, table[key]), matching);
    }
    if page.nextOffset.Some? {
      assert page.items[|page.items| - 1] in page.items;
    }
  }

  lemma AppendPage<T>(page: seq<Row<T>>, rest: seq<Row<T>>, prefix: string, next: string)
    requires IncreasingRows(page) && IncreasingRows(rest)
    requires page != [] && page[|page| - 1].0 == next
    requires forall row :: row in rest ==> Selects(prefix, next, row.0)
    ensures IncreasingRows(page + rest)
  {
    var rows := page + rest;
    forall i, j | 0 <= i < j < |rows|
      ensures Below(rows[i].0, rows[j].0)
    {
      if i < |page| <= j {
        assert rest[j - |page|] in rest;
        if i < |page| - 1 {
          BelowIsTransitive(rows[i].0, next, rows[j].0);
        }
      }
    }
  }

  /** What a finished walk from `after` promises about the rows it collected. */
  ghost predicate Collected<T>(rows: seq<Row<T>>, states: seq<map<string, T>>, prefix: string, after: string)
  {
    && IncreasingRows(rows)
    && (forall row :: row in rows ==> Selects(prefix, after, row.0) && ReadFrom(row, states))
    && (forall key :: AlwaysPresent(key, states) && Selects(prefix, after, key) ==> HasKey(rows, key))
  }

  /** A page in front of a finished walk from that page's cursor. */
  lemma PageThenRest<T>(page: seq<Row<T>>, rest: seq<Row<T>>, states: seq<map<string, T>>,
                        prefix: string, after: string, next: string)
    requires states != [] && Collected(rest, states[1..], prefix, next)
    requires IncreasingRows(page) && page != [] && page[|page| - 1].0 == next && Below(after, next)
    requires forall row :: row in page ==> Selects(prefix, after, row.0) && RowIn(row, states[0])
    requires forall key :: key in states[0] && Selects(prefix, after, key) && !HasKey(page, key) ==> Selects(prefix, next, key)
    ensures Collected(page + rest, states, prefix, after)
  {
    AppendPage(page, rest, prefix, next);
    hide IncreasingRows, StartsWith;
    forall row | row in rest
      ensures ReadFrom(row, states) && Selects(prefix, after, row.0)
    {
      BelowIsTransitive(after, next, row.0);
      var i :| 0 <= i < |states[1..]| && RowIn(row, states[1..][i]);
      assert RowIn(row, states[i + 1]);
    }
    forall key | AlwaysPresent(key, states) && Selects(prefix, after, key)
      ensures HasKey(page + rest, key)
    {
      assert AlwaysPresent(key, states[1..]);
      assert HasKey(page, key) || HasKey(rest, key);
      var row :| (row in page || row in rest) && row.0 == key;
      assert row in page + rest;
    }
  }

  /** A page with nothing behind it is a finished walk. */
  lemma LastPage<T>(page: seq<Row<T>>, states: seq<map<string, T>>, prefix: string, after: string)
    requires states != [] && IncreasingRows(page)
    requires forall row :: row in page ==> Selects(prefix, after, row.0) && RowIn(row, states[0])
    requires forall key :: key in states[0] && Selects(prefix, after, key) ==> HasKey(page, key)
    ensures Collected(page, states, prefix, after)
  {
    hide IncreasingRows, Selects, RowIn;
    forall row | row in page
      ensures ReadFrom(row, states)
    {
      assert RowIn(row, states[0]);
    }
    assert forall key :: AlwaysPresent(key, states) ==> key in states[0];
  }

  lemma {:induction false} WalkFrom<T>(states: seq<map<string, T>>, prefix: string, after: string, limit: int)
    requires limit >= 1 && Walk(states, prefix, after, limit).Some?
    ensures Collected(Walk(states, prefix, after, limit).value, states, prefix, after)
  {
    var page := PageRows(Rows(states[0]), PageQuery(prefix, after, limit));
    PageStep(states[0], prefix, after, limit, page);
    hide PageRows, Rows, IncreasingRows, Selects, Collected;
    if page.nextOffset.Some? {
      var next := page.nextOffset.value;
      WalkFrom(states[1..], prefix, next, limit);
      PageThenRest(page.items, Walk(states[1..], prefix, next, limit).value, states, prefix, after, next);
    } else {
      LastPage(page.items, states, prefix, after);
    }
  }

  /** The walk of a client that starts at the beginning, whatever happens to the
      table between its page reads: no key comes twice, every row was read, and
      a non-empty matching key that is there at every read is returned. */
  lemma WalkUnderMutation<T>(states: seq<map<string, T>>, prefix: string, limit: int)
    requires limit >= 1 && Walk(states, prefix, "", limit).Some?
    ensures var rows := Walk(states, prefix, "", limit).value;
            && IncreasingRows(rows)
            && (forall i, j :: 0 <= i < j < |rows| ==> rows[i].0 != rows[j].0)
            && (forall row :: row in rows ==> StartsWith(row.0, prefix) && ReadFrom(row, states))
            && (forall key :: key != "" && StartsWith(key, prefix) && AlwaysPresent(key, states) ==> HasKey(rows, key))
  {
    WalkFrom(states, prefix, "", limit);
    var rows := Walk(states, prefix, "", limit).value;
    forall i, j | 0 <= i < j < |rows|
      ensures rows[i].0 != rows[j].0
    {
      BelowIsAsymmetric(rows[i].0, rows[j].0);
    }
  }

  /** From the beginning a query selects every matching key but the empty one. */
  lemma MatchingFromStart<T>(table: map<string, T>, prefix: string)
    requires "" !in table
    ensures forall row :: row in Rows(Matching(table, prefix, "")) <==> RowIn(row, table) && StartsWith(row.0, prefix)
  {
    RowsOfTable(Matching(table, prefix, ""));
    hide Rows;
  }

  /** A walk that reads the same table every time collects what its query selects. */
  lemma CollectedFromOneTable<T>(
      rows: seq<Row<T>>, states: seq<map<string, T>>, table: map<string, T>, prefix: string, after: string)
    requires Collected(rows, states, prefix, after)
    requires forall i :: 0 <= i < |states| ==> states[i] == table
    ensures rows == Rows(Matching(table, prefix, after))
  {
    var matching := Matching(table, prefix, after);
    RowsOfTable(matching);
    hide IncreasingRows, Rows, Selects;
    forall row
      ensures row in rows <==> row in Rows(matching)
    {
      if row in rows {
        assert ReadFrom(row, states);
      }
      if RowIn(row, matching) {
        assert AlwaysPresent(row.0, states);
        var same :| same in rows && same.0 == row.0;
        assert ReadFrom(same, states);
      }
    }
    IncreasingRowsAreUnique(rows, Rows(matching));
  }

  /** Without mutation the pages concatenate to the whole filtered listing. */
  lemma WalkWithoutMutation<T>(table: map<string, T>, states: seq<map<string, T>>, prefix: string, limit: int)
    requires limit >= 1 && Walk(states, prefix, "", limit).Some?
    requires forall i :: 0 <= i < |states| ==> states[i] == table
    requires "" !in table
    ensures Walk(states, prefix, "", limit).value == Filtered(Rows(table), prefix, "")
    ensures forall row :: row in Filtered(Rows(table), prefix, "") <==> RowIn(row, table) && StartsWith(row.0, prefix)
  {
    hide Walk, Filtered, Rows, Matching, Collected;
    WalkFrom(states, prefix, "", limit);
    FilteredRows(table, prefix, "");
    MatchingFromStart(table, prefix);
    CollectedFromOneTable(Walk(states, prefix, "", limit).value, states, table, prefix, "");
  }
}
