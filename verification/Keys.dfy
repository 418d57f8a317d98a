/** The key order both stores share: bytewise, as `COLLATE "C"` in the schema and
    `BTreeMap<String, _>` in memory. Comparing code points gives the same order. */
module Keys {
  predicate Below(a: string, b: string)
  {
    |b| > 0 && (|a| == 0 || a[0] < b[0] || (a[0] == b[0] && Below(a[1..], b[1..])))
  }

  lemma SamePrefixSameHead(a: string, b: string)
    ensures forall n | 0 < n <= |a| && n <= |b| && a[..n] == b[..n] :: a[0] == b[0]
  {
    forall n | 0 < n <= |a| && n <= |b| && a[..n] == b[..n]
      ensures a[0] == b[0]
    {
      assert a[0] == a[..n][0] == b[..n][0];
    }
  }

  /** `a` comes first when it is a proper prefix of `b`, or has the smaller character
      where they first differ. */
  lemma {:induction false} BelowIsLexicographic(a: string, b: string)
    ensures Below(a, b) <==>
            exists n :: 0 <= n <= |a| && n < |b| && a[..n] == b[..n] && (n == |a| || a[n] < b[n])
  {
    SamePrefixSameHead(a, b);
    if |a| > 0 && |b| > 0 && a[0] == b[0] {
      BelowIsLexicographic(a[1..], b[1..]);
      if n :| 0 <= n <= |a[1..]| && n < |b[1..]| && a[1..][..n] == b[1..][..n] && (n == |a[1..]| || a[1..][n] < b[1..][n]) {
        assert a[..n + 1] == [a[0]] + a[1..][..n] && b[..n + 1] == [b[0]] + b[1..][..n];
      }
      if n :| 0 <= n <= |a| && n < |b| && a[..n] == b[..n] && (n == |a| || a[n] < b[n]) {
        assert n > 0;
        assert a[1..][..n - 1] == a[..n][1..] && b[1..][..n - 1] == b[..n][1..];
      }
    } else {
      assert a[..0] == b[..0];
    }
  }

  lemma {:induction false} BelowIsTransitive(a: string, b: string, c: string)
    requires Below(a, b) && Below(b, c)
    ensures Below(a, c)
  {
    if |a| > 0 && a[0] == b[0] == c[0] {
      BelowIsTransitive(a[1..], b[1..], c[1..]);
    }
  }

  lemma {:induction false} BelowIsTotal(a: string, b: string)
    ensures Below(a, b) || a == b || Below(b, a)
  {
    if |a| > 0 && |b| > 0 && a[0] == b[0] {
      BelowIsTotal(a[1..], b[1..]);
      assert a == [a[0]] + a[1..] && b == [b[0]] + b[1..];
    }
  }

  lemma {:induction false} BelowIsIrreflexive(a: string)
    ensures !Below(a, a)
  {
    if |a| > 0 {
      BelowIsIrreflexive(a[1..]);
    }
  }

  lemma BelowIsAsymmetric(a: string, b: string)
    requires Below(a, b)
    ensures !Below(b, a) && a != b
  {
    BelowIsIrreflexive(a);
    if Below(b, a) {
      BelowIsTransitive(a, b, a);
    }
  }

  // ---------------------------------------------------------------------
  // Strictly increasing listings
  // ---------------------------------------------------------------------

  ghost predicate Increasing(keys: seq<string>)
  {
    forall i, j :: 0 <= i < j < |keys| ==> Below(keys[i], keys[j])
  }

  /** Every element of `keys`, as a set. */
  ghost function Elements<T>(keys: seq<T>): set<T>
  {
    set key | key in keys
  }

  ghost predicate IsLeast(least: string, keys: set<string>)
  {
    least in keys && forall other :: other in keys ==> least == other || Below(least, other)
  }

  lemma {:induction false} LeastExists(keys: set<string>)
    requires keys != {}
    ensures exists least :: IsLeast(least, keys)
  {
    var some :| some in keys;
    var rest := keys - {some};
    if rest == {} {
      assert forall other :: other in keys ==> other == some || other in rest;
      assert IsLeast(some, keys);
    } else {
      LeastExists(rest);
      var best :| IsLeast(best, rest);
      BelowIsTotal(some, best);
      var least := if Below(some, best) then some else best;
      forall other | other in keys
        ensures least == other || Below(least, other)
      {
        if other != some && Below(some, best) && other != best {
          BelowIsTransitive(some, best, other);
        }
      }
      assert IsLeast(least, keys);
    }
  }

  ghost function Least(keys: set<string>): (least: string)
    requires keys != {}
    ensures IsLeast(least, keys)
  {
    LeastExists(keys);
    var least :| IsLeast(least, keys);
    least
  }

  /** What iterating a `BTreeSet`, or `ORDER BY key`, yields. */
  ghost function Sorted(keys: set<string>): (listing: seq<string>)
    ensures Increasing(listing)
    ensures Elements(listing) == keys
  {
    if keys == {} then []
    else
      var least := Least(keys);
      var rest := Sorted(keys - {least});
      assert forall key :: key in [least] + rest <==> key == least || key in Elements(rest);
      [least] + rest
  }

  /** An increasing listing is determined by its elements, so "sorted, without
      duplicates" leaves a query no freedom. */
  lemma {:induction false} IncreasingListingIsUnique(a: seq<string>, b: seq<string>)
    requires Increasing(a) && Increasing(b) && Elements(a) == Elements(b)
    ensures a == b
  {
    assert a != [] ==> a[0] in Elements(b);
    assert b != [] ==> b[0] in Elements(a);
    if a != [] && b != [] {
      HeadIsBelowTail(a);
      HeadIsBelowTail(b);
      if a[0] != b[0] {
        BelowIsAsymmetric(a[0], b[0]);
        assert false;
      }
      forall key
        ensures key in a[1..] <==> key in b[1..]
      {
        assert key in a <==> key in Elements(a);
        assert key in b <==> key in Elements(b);
        BelowIsIrreflexive(a[0]);
      }
      IncreasingListingIsUnique(a[1..], b[1..]);
      assert a == [a[0]] + a[1..] && b == [b[0]] + b[1..];
    }
  }

  lemma HeadIsBelowTail(keys: seq<string>)
    requires Increasing(keys) && keys != []
    ensures Increasing(keys[1..])
    ensures forall key :: key in keys[1..] ==> Below(keys[0], key)
    ensures forall key :: key in keys <==> key == keys[0] || key in keys[1..]
  {
    forall key | key in keys[1..]
      ensures Below(keys[0], key)
    {
      var i :| 0 <= i < |keys[1..]| && keys[1..][i] == key;
      assert keys[i + 1] == key;
    }
    assert keys == [keys[0]] + keys[1..];
  }

  // ---------------------------------------------------------------------
  // Prefixes
  // ---------------------------------------------------------------------

  predicate StartsWith(key: string, prefix: string)
  {
    |prefix| <= |key| && key[..|prefix|] == prefix
  }
}
