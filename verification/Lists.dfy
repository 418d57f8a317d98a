/** The lists of both stores. In memory a list filters an iteration and checks its
    owner first; in PostgreSQL it is one statement, and the owner is only looked up
    for an empty page. */
module Lists {
  import opened Wrappers
  import opened Types
  import opened Tables
  import opened Keys
  import opened Pagination
  import Like

  type ListResult<+T> = Result<PageOf<T>, StoreError>

  // ---------------------------------------------------------------------
  // In memory
  // ---------------------------------------------------------------------

  predicate PairBelow(a: (string, string), b: (string, string))
  {
    Below(a.0, b.0) || (a.0 == b.0 && Below(a.1, b.1))
  }

  /** What iterating a `BTreeSet` of pairs yields. */
  ghost predicate Iterates(listing: seq<(string, string)>, rows: set<(string, string)>)
  {
    && (forall i, j :: 0 <= i < j < |listing| ==> PairBelow(listing[i], listing[j]))
    && (forall row :: row in listing <==> row in rows)
  }

  /** `filter` on the first column, then `filter_map` of the second through a table. */
  function BySecond<T>(listing: seq<(string, string)>, owner: string, table: map<string, T>): seq<Row<T>>
  {
    if listing == [] then []
    else
      (if listing[0].0 == owner && listing[0].1 in table then [(listing[0].1, table[listing[0].1])] else [])
      + BySecond(listing[1..], owner, table)
  }

  /** `filter` on the second column, then `filter_map` of the first through a table. */
  function ByFirst<T>(listing: seq<(string, string)>, owner: string, table: map<string, T>): seq<Row<T>>
  {
    if listing == [] then []
    else
      (if listing[0].1 == owner && listing[0].0 in table then [(listing[0].0, table[listing[0].0])] else [])
      + ByFirst(listing[1..], owner, table)
  }

  /** The owner check of the in-memory store comes first. */
  function MemList<T>(owner: bool, missing: StoreError, rows: seq<Row<T>>, query: PageQuery): ListResult<T>
  {
    if !owner then Err(missing) else Ok(PageSorted(rows, query))
  }

  function MemGroupMembers(t: Tables, listing: seq<(string, string)>, group: string, query: PageQuery): ListResult<UserRecord>
  {
    MemList(group in t.groups, NotFound("group", group), BySecond(listing, group, t.users), query)
  }

  function MemUserGroups(t: Tables, listing: seq<(string, string)>, username: string, query: PageQuery): ListResult<GroupRecord>
  {
    MemList(username in t.users, NotFound("user", username), ByFirst(listing, username, t.groups), query)
  }

  function MemUserPolicies(t: Tables, listing: seq<(string, string)>, username: string, query: PageQuery): ListResult<PolicyRecord>
  {
    MemList(username in t.users, NotFound("user", username), BySecond(listing, username, t.policies), query)
  }

  function MemGroupPolicies(t: Tables, listing: seq<(string, string)>, group: string, query: PageQuery): ListResult<PolicyRecord>
  {
    MemList(group in t.groups, NotFound("group", group), BySecond(listing, group, t.policies), query)
  }

  /** `policies_named` over a sorted set of names. */
  function Named(t: Tables, names: seq<string>): seq<Row<PolicyRecord>>
  {
    if names == [] then []
    else (if names[0] in t.policies then [(names[0], t.policies[names[0]])] else []) + Named(t, names[1..])
  }

  /** The two sets: direct attachments, and those of the user's groups. */
  function EffectiveNames(t: Tables, username: string): set<string>
  {
    var groups := set row | row in t.groupMembers && row.1 == username :: row.0;
    (set row | row in t.userPolicies && row.0 == username :: row.1)
    + (set row | row in t.groupPolicies && row.0 in groups :: row.1)
  }

  ghost function MemEffectivePolicies(t: Tables, username: string, query: PageQuery): ListResult<PolicyRecord>
  {
    MemList(username in t.users, NotFound("user", username), Named(t, Sorted(EffectiveNames(t, username))), query)
  }

  ghost function MemUserCredentials(t: Tables, username: string, query: PageQuery): ListResult<CredentialRecord>
  {
    var owned := map key | key in t.credentials && t.credentials[key].username == username :: t.credentials[key];
    MemList(username in t.users, NotFound("user", username), Rows(owned), query)
  }

  ghost function MemUserPrincipals(t: Tables, username: string, query: PageQuery): ListResult<ExternalPrincipalRecord>
  {
    var owned := map id | id in t.externalPrincipals && t.externalPrincipals[id].username == username ::
      t.externalPrincipals[id];
    MemList(username in t.users, NotFound("user", username), Rows(owned), query)
  }

  // ---------------------------------------------------------------------
  // In PostgreSQL
  // ---------------------------------------------------------------------

  /** `WHERE key LIKE $pattern AND key > $after ORDER BY key LIMIT $fetch` on a
      relation whose primary key is the sort key. */
  ghost function SqlPage<T>(relation: map<string, T>, query: PageQuery): PageOf<T>
  {
    var selected := map key |
      key in relation && Like.Matches(key, Like.LikePattern(query.prefix)) && Below(query.after, key) :: relation[key];
    var page := FromOverfetch(Take(Rows(selected), query.FetchLimit()), query.limit, (row: Row<T>) => row.0);
    PageOf(Items(page.items), page.nextOffset)
  }

  /** `fetch_owned_page`: the owner is looked up only when the page is empty. */
  ghost function FetchOwnedPage<T>(relation: map<string, T>, owner: bool, missing: StoreError, query: PageQuery): ListResult<T>
  {
    var page := SqlPage(relation, query);
    if page.items == [] && !owner then Err(missing) else Ok(page)
  }

  ghost function PgGroupMembers(t: Tables, group: string, query: PageQuery): ListResult<UserRecord>
  {
    var joined := map name | name in t.users && (group, name) in t.groupMembers :: t.users[name];
    FetchOwnedPage(joined, group in t.groups, NotFound("group", group), query)
  }

  ghost function PgUserGroups(t: Tables, username: string, query: PageQuery): ListResult<GroupRecord>
  {
    var joined := map id | id in t.groups && (id, username) in t.groupMembers :: t.groups[id];
    FetchOwnedPage(joined, username in t.users, NotFound("user", username), query)
  }

  ghost function PgUserPolicies(t: Tables, username: string, query: PageQuery): ListResult<PolicyRecord>
  {
    var joined := map name | name in t.policies && (username, name) in t.userPolicies :: t.policies[name];
    FetchOwnedPage(joined, username in t.users, NotFound("user", username), query)
  }

  ghost function PgGroupPolicies(t: Tables, group: string, query: PageQuery): ListResult<PolicyRecord>
  {
    var joined := map name | name in t.policies && (group, name) in t.groupPolicies :: t.policies[name];
    FetchOwnedPage(joined, group in t.groups, NotFound("group", group), query)
  }

  /** `UNION` of the direct names and the join of group policies with memberships. */
  function UnionNames(t: Tables, username: string): set<string>
  {
    (set row | row in t.userPolicies && row.0 == username :: row.1)
    + (set gp, gm | gp in t.groupPolicies && gm in t.groupMembers && gm.0 == gp.0 && gm.1 == username :: gp.1)
  }

  ghost function PgEffectivePolicies(t: Tables, username: string, query: PageQuery): ListResult<PolicyRecord>
  {
    var joined := map name | name in t.policies && name in UnionNames(t, username) :: t.policies[name];
    FetchOwnedPage(joined, username in t.users, NotFound("user", username), query)
  }

  /** The user id comes from the joined user row, not from the credential. */
  ghost function PgUserCredentials(t: Tables, username: string, query: PageQuery): ListResult<CredentialRecord>
  {
    var joined := map key | key in t.credentials && t.credentials[key].username == username && username in t.users ::
      t.credentials[key].(userId := t.users[username].userId);
    FetchOwnedPage(joined, username in t.users, NotFound("user", username), query)
  }

  ghost function PgUserPrincipals(t: Tables, username: string, query: PageQuery): ListResult<ExternalPrincipalRecord>
  {
    var owned := map id | id in t.externalPrincipals && t.externalPrincipals[id].username == username ::
      t.externalPrincipals[id];
    FetchOwnedPage(owned, username in t.users, NotFound("user", username), query)
  }

  // ---------------------------------------------------------------------
  // Both give the same page
  // ---------------------------------------------------------------------

  lemma SqlPageIsPageSorted<T>(relation: map<string, T>, query: PageQuery)
    ensures SqlPage(relation, query) == PageSorted(Rows(relation), query)
  {
    var selected := map key |
      key in relation && Like.Matches(key, Like.LikePattern(query.prefix)) && Below(query.after, key) :: relation[key];
    forall key
      ensures Like.Matches(key, Like.LikePattern(query.prefix)) <==> StartsWith(key, query.prefix)
    {
      Like.LikeIsStartsWith(key, query.prefix);
    }
    hide Rows, Filtered, Like.Matches, Like.LikePattern, StartsWith;
    assert selected == Matching(relation, query.prefix, query.after);
    FilteredRows(relation, query.prefix, query.after);
  }

  /** The late owner check cannot be told from an early one when only an existing
      owner has rows. */
  lemma OwnedPageAgrees<T>(relation: map<string, T>, rows: seq<Row<T>>, owner: bool, missing: StoreError, query: PageQuery)
    requires rows == Rows(relation)
    requires relation != map[] ==> owner
    ensures FetchOwnedPage(relation, owner, missing, query) == MemList(owner, missing, rows, query)
  {
    SqlPageIsPageSorted(relation, query);
    if relation == map[] {
      assert Rows(relation) == [];
    }
  }

  lemma BySecondIsRows<T>(
      listing: seq<(string, string)>, rows: set<(string, string)>, owner: string, table: map<string, T>)
    requires Iterates(listing, rows)
    ensures BySecond(listing, owner, table) == Rows(map key | key in table && (owner, key) in rows :: table[key])
  {
    var relation := map key | key in table && (owner, key) in rows :: table[key];
    BySecondOrder(listing, owner, table);
    RowsOfTable(relation);
    forall row
      ensures row in BySecond(listing, owner, table) <==> RowIn(row, relation)
    {
      assert (owner, row.0) in listing <==> (owner, row.0) in rows;
    }
    IncreasingRowsAreUnique(BySecond(listing, owner, table), Rows(relation));
  }

  lemma {:induction false} BySecondOrder<T>(listing: seq<(string, string)>, owner: string, table: map<string, T>)
    requires forall i, j :: 0 <= i < j < |listing| ==> PairBelow(listing[i], listing[j])
    ensures IncreasingRows(BySecond(listing, owner, table))
    ensures forall row :: row in BySecond(listing, owner, table) <==> (owner, row.0) in listing && RowIn(row, table)
  {
    if listing != [] {
      BySecondOrder(listing[1..], owner, table);
      assert listing == [listing[0]] + listing[1..];
      var rest := BySecond(listing[1..], owner, table);
      forall row | row in rest && listing[0].0 == owner
        ensures Below(listing[0].1, row.0)
      {
        assert row in BySecond(listing[1..], owner, table) && RowIn(row, table);
        assert (owner, row.0) in listing[1..];
        var i :| 0 <= i < |listing[1..]| && listing[1..][i] == (owner, row.0);
        assert PairBelow(listing[0], listing[i + 1]);
        BelowIsIrreflexive(owner);
      }
      assert forall i :: 0 <= i < |rest| ==> rest[i] in rest;
    }
  }

  lemma ByFirstIsRows<T>(
      listing: seq<(string, string)>, rows: set<(string, string)>, owner: string, table: map<string, T>)
    requires Iterates(listing, rows)
    ensures ByFirst(listing, owner, table) == Rows(map key | key in table && (key, owner) in rows :: table[key])
  {
    var relation := map key | key in table && (key, owner) in rows :: table[key];
    ByFirstOrder(listing, owner, table);
    RowsOfTable(relation);
    forall row
      ensures row in ByFirst(listing, owner, table) <==> RowIn(row, relation)
    {
      assert (row.0, owner) in listing <==> (row.0, owner) in rows;
    }
    IncreasingRowsAreUnique(ByFirst(listing, owner, table), Rows(relation));
  }

  lemma {:induction false} ByFirstOrder<T>(listing: seq<(string, string)>, owner: string, table: map<string, T>)
    requires forall i, j :: 0 <= i < j < |listing| ==> PairBelow(listing[i], listing[j])
    ensures IncreasingRows(ByFirst(listing, owner, table))
    ensures forall row :: row in ByFirst(listing, owner, table) <==> (row.0, owner) in listing && RowIn(row, table)
  {
    if listing != [] {
      ByFirstOrder(listing[1..], owner, table);
      assert listing == [listing[0]] + listing[1..];
      var rest := ByFirst(listing[1..], owner, table);
      forall row | row in rest && listing[0].1 == owner
        ensures Below(listing[0].0, row.0)
      {
        assert row in ByFirst(listing[1..], owner, table) && RowIn(row, table);
        assert (row.0, owner) in listing[1..];
        var i :| 0 <= i < |listing[1..]| && listing[1..][i] == (row.0, owner);
        assert PairBelow(listing[0], listing[i + 1]);
        BelowIsIrreflexive(owner);
      }
      assert forall i :: 0 <= i < |rest| ==> rest[i] in rest;
    }
  }

  lemma {:induction false} NamedOrder(t: Tables, names: seq<string>)
    requires Increasing(names)
    ensures IncreasingRows(Named(t, names))
    ensures forall row :: row in Named(t, names) <==> row.0 in names && RowIn(row, t.policies)
  {
    if names != [] {
      HeadIsBelowTail(names);
      NamedOrder(t, names[1..]);
      var rest := Named(t, names[1..]);
      assert forall i :: 0 <= i < |rest| ==> rest[i] in rest;
    }
  }

  /** The membership and attachment lists of both stores agree, page by page, on
      every valid state and for every query. */
  lemma GroupMembersAgree(t: Tables, listing: seq<(string, string)>, id: string, query: PageQuery)
    requires Valid(t) && Iterates(listing, t.groupMembers)
    ensures PgGroupMembers(t, id, query) == MemGroupMembers(t, listing, id, query)
    ensures MemGroupMembers(t, listing, id, query) ==
            if id in t.groups then Ok(PageSorted(Rows(map key | key in t.users && (id, key) in t.groupMembers :: t.users[key]), query))
            else Err(NotFound("group", id))
  {
    hide Rows, FetchOwnedPage, BySecond, PageSorted, Iterates, UniqueIds, UniqueEmails, UniqueExternalIds;
    var joined := map key | key in t.users && (id, key) in t.groupMembers :: t.users[key];
    BySecondIsRows(listing, t.groupMembers, id, t.users);
    OwnedPageAgrees(joined, BySecond(listing, id, t.users), id in t.groups, NotFound("group", id), query);
  }

  lemma UserGroupsAgree(t: Tables, listing: seq<(string, string)>, id: string, query: PageQuery)
    requires Valid(t) && Iterates(listing, t.groupMembers)
    ensures PgUserGroups(t, id, query) == MemUserGroups(t, listing, id, query)
    ensures MemUserGroups(t, listing, id, query) ==
            if id in t.users then Ok(PageSorted(Rows(map key | key in t.groups && (key, id) in t.groupMembers :: t.groups[key]), query))
            else Err(NotFound("user", id))
  {
    hide Rows, FetchOwnedPage, ByFirst, PageSorted, Iterates, UniqueIds, UniqueEmails, UniqueExternalIds;
    var joined := map key | key in t.groups && (key, id) in t.groupMembers :: t.groups[key];
    ByFirstIsRows(listing, t.groupMembers, id, t.groups);
    OwnedPageAgrees(joined, ByFirst(listing, id, t.groups), id in t.users, NotFound("user", id), query);
  }

  lemma UserPoliciesAgree(t: Tables, listing: seq<(string, string)>, id: string, query: PageQuery)
    requires Valid(t) && Iterates(listing, t.userPolicies)
    ensures PgUserPolicies(t, id, query) == MemUserPolicies(t, listing, id, query)
    ensures MemUserPolicies(t, listing, id, query) ==
            if id in t.users then Ok(PageSorted(Rows(map key | key in t.policies && (id, key) in t.userPolicies :: t.policies[key]), query))
            else Err(NotFound("user", id))
  {
    hide Rows, FetchOwnedPage, BySecond, PageSorted, Iterates, UniqueIds, UniqueEmails, UniqueExternalIds;
    var joined := map key | key in t.policies && (id, key) in t.userPolicies :: t.policies[key];
    BySecondIsRows(listing, t.userPolicies, id, t.policies);
    OwnedPageAgrees(joined, BySecond(listing, id, t.policies), id in t.users, NotFound("user", id), query);
  }

  lemma GroupPoliciesAgree(t: Tables, listing: seq<(string, string)>, id: string, query: PageQuery)
    requires Valid(t) && Iterates(listing, t.groupPolicies)
    ensures PgGroupPolicies(t, id, query) == MemGroupPolicies(t, listing, id, query)
    ensures MemGroupPolicies(t, listing, id, query) ==
            if id in t.groups then Ok(PageSorted(Rows(map key | key in t.policies && (id, key) in t.groupPolicies :: t.policies[key]), query))
            else Err(NotFound("group", id))
  {
    hide Rows, FetchOwnedPage, BySecond, PageSorted, Iterates, UniqueIds, UniqueEmails, UniqueExternalIds;
    var joined := map key | key in t.policies && (id, key) in t.groupPolicies :: t.policies[key];
    BySecondIsRows(listing, t.groupPolicies, id, t.policies);
    OwnedPageAgrees(joined, BySecond(listing, id, t.policies), id in t.groups, NotFound("group", id), query);
  }

  /** So do the key lists; the credential list because a stored credential carries
      the id its owner has now. */
  lemma KeyListsAgree(t: Tables, username: string, query: PageQuery)
    requires Valid(t)
    ensures PgUserCredentials(t, username, query) == MemUserCredentials(t, username, query)
    ensures PgUserPrincipals(t, username, query) == MemUserPrincipals(t, username, query)
  {
    hide Rows, FetchOwnedPage, MemList;
    var credentials := map key | key in t.credentials && t.credentials[key].username == username :: t.credentials[key];
    var joined := map key | key in t.credentials && t.credentials[key].username == username && username in t.users ::
      t.credentials[key].(userId := t.users[username].userId);
    assert joined == credentials;
    OwnedPageAgrees(credentials, Rows(credentials), username in t.users, NotFound("user", username), query);
    var principals := map id | id in t.externalPrincipals && t.externalPrincipals[id].username == username ::
      t.externalPrincipals[id];
    OwnedPageAgrees(principals, Rows(principals), username in t.users, NotFound("user", username), query);
  }

  /** The key lists hold exactly the owner's rows; an owner that is missing is a 404. */
  lemma KeyListsAreOwned(t: Tables, username: string, query: PageQuery)
    ensures MemUserCredentials(t, username, query) ==
            if username !in t.users then Err(NotFound("user", username))
            else Ok(PageSorted(Rows(map key | key in t.credentials && t.credentials[key].username == username ::
                                      t.credentials[key]), query))
    ensures MemUserPrincipals(t, username, query) ==
            if username !in t.users then Err(NotFound("user", username))
            else Ok(PageSorted(Rows(map id | id in t.externalPrincipals && t.externalPrincipals[id].username == username ::
                                      t.externalPrincipals[id]), query))
  {
    hide PageSorted, Rows;
  }

  /** The stored policies with the given names, in key order. */
  lemma NamedIsRows(t: Tables, names: set<string>, joined: map<string, PolicyRecord>)
    requires names <= t.policies.Keys
    requires joined == map name | name in t.policies && name in names :: t.policies[name]
    ensures Named(t, Sorted(names)) == Rows(joined)
    ensures IncreasingRows(Rows(joined))
    ensures forall name :: HasKey(Rows(joined), name) <==> name in names
  {
    NamedOrder(t, Sorted(names));
    RowsOfTable(joined);
    var rows := Named(t, Sorted(names));
    assert forall name :: name in Sorted(names) <==> name in Elements(Sorted(names));
    hide Named, Rows, IncreasingRows;
    IncreasingRowsAreUnique(rows, Rows(joined));
    forall name | name in names
      ensures HasKey(rows, name)
    {
      assert RowIn((name, t.policies[name]), t.policies);
    }
  }

  /** The `UNION` statement gives the page of the two-set union, and its listing is
      sorted, without duplicates, and complete. */
  lemma EffectivePoliciesAgree(t: Tables, username: string, query: PageQuery)
    requires Valid(t)
    ensures PgEffectivePolicies(t, username, query) == MemEffectivePolicies(t, username, query)
    ensures var rows := Named(t, Sorted(EffectiveNames(t, username)));
            && IncreasingRows(rows)
            && forall name :: HasKey(rows, name) <==>
                 (username, name) in t.userPolicies
                 || exists group :: (group, username) in t.groupMembers && (group, name) in t.groupPolicies
  {
    var joined := map name | name in t.policies && name in UnionNames(t, username) :: t.policies[name];
    EffectiveIs(t, username);
    NamedIsRows(t, EffectiveNames(t, username), joined);
    hide Rows, Named, FetchOwnedPage, MemList, EffectiveNames, UnionNames, IncreasingRows, HasKey;
    OwnedPageAgrees(joined, Rows(joined), username in t.users, NotFound("user", username), query);
  }

  lemma EffectiveIs(t: Tables, username: string)
    requires Valid(t)
    ensures EffectiveNames(t, username) == UnionNames(t, username)
    ensures EffectiveNames(t, username) <= t.policies.Keys
    ensures EffectiveNames(t, username) != {} ==> username in t.users
    ensures forall name :: name in EffectiveNames(t, username) <==>
              (username, name) in t.userPolicies
              || exists group :: (group, username) in t.groupMembers && (group, name) in t.groupPolicies
  {
    forall name
      ensures name in EffectiveNames(t, username) <==>
              (username, name) in t.userPolicies
              || exists group :: (group, username) in t.groupMembers && (group, name) in t.groupPolicies
      ensures name in EffectiveNames(t, username) <==> name in UnionNames(t, username)
    {
      var groups := set row | row in t.groupMembers && row.1 == username :: row.0;
      if group :| (group, username) in t.groupMembers && (group, name) in t.groupPolicies {
        assert group in groups by { assert (group, username) in t.groupMembers; }
        assert (group, name).1 in (set row | row in t.groupPolicies && row.0 in groups :: row.1);
        var gp, gm := (group, name), (group, username);
        assert gp in t.groupPolicies && gm in t.groupMembers && gm.0 == gp.0 && gm.1 == username;
      }
      if (username, name) in t.userPolicies {
        assert (username, name).1 in (set row | row in t.userPolicies && row.0 == username :: row.1);
      }
    }
  }

  /** The late owner check needs the invariant: with a dangling membership the
      PostgreSQL form would answer a page where the in-memory form answers 404. */
  lemma OwnerCheckNeedsInvariant()
    ensures var t := EMPTY.(users := map["u" := UserRecord("u", 1, 0, None, None, None, None, None)], nextUserId := 1,
                            groupMembers := {("g", "u")});
            var query := PageQuery("", "", 1);
            && Iterates([("g", "u")], t.groupMembers) && !Valid(t)
            && PgGroupMembers(t, "g", query) != MemGroupMembers(t, [("g", "u")], "g", query)
  {
    var user := UserRecord("u", 1, 0, None, None, None, None, None);
    var t := EMPTY.(users := map["u" := user], nextUserId := 1, groupMembers := {("g", "u")});
    var query := PageQuery("", "", 1);
    var joined := map name | name in t.users && ("g", name) in t.groupMembers :: t.users[name];
    assert ("g", "u") in t.groupMembers;
    SqlPageIsPageSorted(joined, query);
    FilteredRows(joined, "", "");
    RowsOfTable(Matching(joined, "", ""));
    assert Selects("", "", "u");
    assert RowIn(("u", user), Matching(joined, "", ""));
    assert PageSorted(Rows(joined), query).items != [];
  }
}
