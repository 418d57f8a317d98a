/** The `key=value,key=value` lists of the command line, whose values may hold the
    separator: an item without `=` continues the value before it. */
module KeyValues {
  import opened Wrappers
  import opened Keys
  import opened Text
  import opened Pagination

  type Pair = (string, string)

  datatype ParseError = EmptyKey(item: string) | EmptyValue(item: string) | NoPair(item: string) | Repeated(key: string)

  // ---------------------------------------------------------------------
  // Items
  // ---------------------------------------------------------------------

  /** What one more character in front does to the parts of a text. */
  function Extended(c: char, parts: seq<string>): (extended: seq<string>)
    requires |parts| >= 1
    ensures |extended| >= 1
  {
    if c == ',' then [""] + parts else [[c] + parts[0]] + parts[1..]
  }

  /** `split(',')`: never empty, and nothing in it holds a comma. */
  function Split(text: string): (parts: seq<string>)
    ensures |parts| >= 1
  {
    if text == "" then [""] else Extended(text[0], Split(text[1..]))
  }

  function NonBlanks(parts: seq<string>): seq<string>
  {
    if parts == [] then []
    else (if NonBlank(parts[0]).Some? then [NonBlank(parts[0]).value] else []) + NonBlanks(parts[1..])
  }

  /** `CommaList` */
  function CommaItems(text: string): seq<string>
  {
    NonBlanks(Split(text))
  }

  /** `split_once('=')` */
  function SplitOnce(item: string): Option<Pair>
  {
    if item == "" then None
    else if item[0] == '=' then Some(("", item[1..]))
    else
      match SplitOnce(item[1..])
      case None => None
      case Some((key, value)) => Some(([item[0]] + key, value))
  }

  // ---------------------------------------------------------------------
  // The parser
  // ---------------------------------------------------------------------

  function InsertOnce(pairs: map<string, string>, pair: Pair): Result<map<string, string>, ParseError>
  {
    if pair.0 in pairs then Err(Repeated(pair.0)) else Ok(pairs[pair.0 := pair.1])
  }

  function Settled(pairs: map<string, string>, current: Option<Pair>): Result<map<string, string>, ParseError>
  {
    match current
    case None => Ok(pairs)
    case Some(pair) => InsertOnce(pairs, pair)
  }

  function ParseFrom(items: seq<string>, pairs: map<string, string>, current: Option<Pair>)
    : Result<map<string, string>, ParseError>
    decreases items
  {
    if items == [] then Settled(pairs, current)
    else
      match (SplitOnce(items[0]), current, Settled(pairs, current))
      case (Some(_), _, Err(error)) => Err(error)
      case (Some((key, value)), _, Ok(settled)) =>
        if Trim(key) == "" then Err(EmptyKey(items[0]))
        else if Trim(value) == "" then Err(EmptyValue(items[0]))
        else ParseFrom(items[1..], settled, Some((Trim(key), Trim(value))))
      case (None, None, _) => Err(NoPair(items[0]))
      case (None, Some((key, value)), _) => ParseFrom(items[1..], pairs, Some((key, value + "," + items[0])))
  }

  function Parsed(text: string): Result<map<string, string>, ParseError>
  {
    ParseFrom(CommaItems(text), map[], None)
  }

  /** `KeyValues::from_str` */
  method Parse(text: string) returns (r: Result<map<string, string>, ParseError>)
    ensures r == Parsed(text)
  {
    hide SplitOnce, Trim, CommaItems;
    var pairs: map<string, string> := map[];
    var current: Option<Pair> := None;
    var items := CommaItems(text);
    assert items[0..] == items;
    for i := 0 to |items|
      invariant Parsed(text) == ParseFrom(items[i..], pairs, current)
    {
      assert items[i..][0] == items[i] && items[i..][1..] == items[i + 1..];
      match SplitOnce(items[i]) {
        case Some((key, value)) =>
          if current.Some? {
            var inserted := InsertOnce(pairs, current.value);
            if inserted.Err? {
              return Err(inserted.error);
            }
            pairs := inserted.value;
          }
          if Trim(key) == "" {
            return Err(EmptyKey(items[i]));
          }
          if Trim(value) == "" {
            return Err(EmptyValue(items[i]));
          }
          current := Some((Trim(key), Trim(value)));
        case None =>
          if current.None? {
            return Err(NoPair(items[i]));
          }
          current := Some((current.value.0, current.value.1 + "," + items[i]));
      }
    }
    if current.Some? {
      r := InsertOnce(pairs, current.value);
    } else {
      r := Ok(pairs);
    }
  }

  // ---------------------------------------------------------------------
  // Well-formed maps, and how they are printed
  // ---------------------------------------------------------------------

  /** What an item is after trimming. */
  predicate Solid(item: string)
  {
    item != "" && Trimmed(item) && ',' !in item
  }

  predicate GoodKey(key: string)
  {
    Solid(key) && '=' !in key
  }

  /** Only the first piece of a value may hold an `=`. */
  predicate GoodValue(value: string)
  {
    var parts := Split(value);
    && (forall i :: 0 <= i < |parts| ==> Solid(parts[i]))
    && (forall i :: 1 <= i < |parts| ==> '=' !in parts[i])
  }

  predicate GoodPair(pair: Pair)
  {
    GoodKey(pair.0) && GoodValue(pair.1)
  }

  ghost predicate WellFormed(pairs: map<string, string>)
  {
    forall key | key in pairs :: GoodPair((key, pairs[key]))
  }

  function Print(pairs: seq<Pair>): string
  {
    if pairs == [] then ""
    else if |pairs| == 1 then pairs[0].0 + "=" + pairs[0].1
    else pairs[0].0 + "=" + pairs[0].1 + "," + Print(pairs[1..])
  }

  /** A map printed in key order. */
  ghost function Printed(pairs: map<string, string>): string
  {
    Print(Rows(pairs))
  }

  // ---------------------------------------------------------------------
  // Splitting
  // ---------------------------------------------------------------------

  lemma {:induction false} SplitPartsHaveNoComma(text: string)
    ensures forall i :: 0 <= i < |Split(text)| ==> ',' !in Split(text)[i]
  {
    if text != "" {
      SplitPartsHaveNoComma(text[1..]);
    }
  }

  lemma ExtendedFront(c: char, head: seq<string>, tail: seq<string>)
    requires |head| >= 1
    ensures Extended(c, head + tail) == Extended(c, head) + tail
  {
    if c != ',' {
      assert (head + tail)[1..] == head[1..] + tail;
    }
  }

  lemma {:induction false} SplitOfJoined(a: string, b: string)
    ensures Split(a + "," + b) == Split(a) + Split(b)
  {
    var text := a + "," + b;
    if a == "" {
      assert text[1..] == b;
    } else {
      SplitOfJoined(a[1..], b);
      assert text[1..] == a[1..] + "," + b;
      hide Extended;
      ExtendedFront(a[0], Split(a[1..]), Split(b));
    }
  }

  lemma {:induction false} SplitWithoutComma(text: string)
    requires ',' !in text
    ensures Split(text) == [text]
  {
    if text != "" {
      SplitWithoutComma(text[1..]);
      assert [text[0]] + text[1..] == text;
    }
  }

  /** A front without a comma goes to the first part. */
  lemma {:induction false} SplitWithFront(front: string, text: string)
    requires ',' !in front
    ensures Split(front + text) == [front + Split(text)[0]] + Split(text)[1..]
  {
    if front == "" {
      assert front + text == text;
      assert front + Split(text)[0] == Split(text)[0];
    } else {
      SplitWithFront(front[1..], text);
      assert (front + text)[1..] == front[1..] + text;
      assert front == [front[0]] + front[1..];
      var part := Split(text)[0];
      assert front + part == [front[0]] + (front[1..] + part);
    }
  }

  lemma {:induction false} SolidPartsStay(parts: seq<string>)
    requires forall i :: 0 <= i < |parts| ==> Solid(parts[i])
    ensures NonBlanks(parts) == parts
  {
    if parts != [] {
      TrimIsTrimmed(parts[0]);
      SolidPartsStay(parts[1..]);
    }
  }

  lemma {:induction false} ItemsAreSolid(parts: seq<string>)
    requires forall i :: 0 <= i < |parts| ==> ',' !in parts[i]
    ensures forall i :: 0 <= i < |NonBlanks(parts)| ==> Solid(NonBlanks(parts)[i])
  {
    if parts != [] {
      TrimIsTrimmed(parts[0]);
      ItemsAreSolid(parts[1..]);
    }
  }

  lemma {:induction false} SplitOnceAtFirst(key: string, value: string)
    requires '=' !in key
    ensures SplitOnce(key + "=" + value) == Some((key, value))
  {
    var item := key + "=" + value;
    if key == "" {
      assert item[1..] == value;
    } else {
      SplitOnceAtFirst(key[1..], value);
      assert item[1..] == key[1..] + "=" + value;
      assert key == [key[0]] + key[1..];
    }
  }

  lemma {:induction false} SplitOnceParts(item: string)
    ensures SplitOnce(item).None? <==> '=' !in item
    ensures SplitOnce(item).Some? ==>
              && '=' !in SplitOnce(item).value.0
              && (',' !in item ==> ',' !in SplitOnce(item).value.0 && ',' !in SplitOnce(item).value.1)
  {
    if item != "" && item[0] != '=' {
      SplitOnceParts(item[1..]);
    }
  }

  // ---------------------------------------------------------------------
  // Every result is well formed
  // ---------------------------------------------------------------------

  lemma GrownValue(value: string, item: string)
    requires GoodValue(value) && Solid(item) && '=' !in item
    ensures GoodValue(value + "," + item)
  {
    SplitOfJoined(value, item);
    SplitWithoutComma(item);
  }

  lemma FreshPair(item: string)
    requires Solid(item) && SplitOnce(item).Some?
    requires var (key, value) := SplitOnce(item).value; Trim(key) != "" && Trim(value) != ""
    ensures var (key, value) := SplitOnce(item).value; GoodPair((Trim(key), Trim(value)))
  {
    var (key, value) := SplitOnce(item).value;
    SplitOnceParts(item);
    TrimIsTrimmed(key);
    TrimIsTrimmed(value);
    hide Trim, SplitOnce;
    SplitWithoutComma(Trim(value));
  }

  lemma {:induction false} ParseFromIsWellFormed(items: seq<string>, pairs: map<string, string>, current: Option<Pair>)
    requires forall i :: 0 <= i < |items| ==> Solid(items[i])
    requires WellFormed(pairs) && (current.Some? ==> GoodPair(current.value))
    requires ParseFrom(items, pairs, current).Ok?
    ensures WellFormed(ParseFrom(items, pairs, current).value)
    decreases items
  {
    hide GoodPair, Solid, SplitOnce, Trim;
    if items != [] {
      SplitOnceParts(items[0]);
      match SplitOnce(items[0]) {
        case Some((key, value)) =>
          FreshPair(items[0]);
          ParseFromIsWellFormed(items[1..], Settled(pairs, current).value, Some((Trim(key), Trim(value))));
        case None =>
          GrownPair(current.value, items[0]);
          ParseFromIsWellFormed(items[1..], pairs, Some((current.value.0, current.value.1 + "," + items[0])));
      }
    }
  }

  lemma GrownPair(pair: Pair, item: string)
    requires GoodPair(pair) && Solid(item) && '=' !in item
    ensures GoodPair((pair.0, pair.1 + "," + item))
  {
    GrownValue(pair.1, item);
    hide GoodValue, GoodKey;
  }

  lemma ParsedIsWellFormed(text: string)
    requires Parsed(text).Ok?
    ensures WellFormed(Parsed(text).value)
  {
    SplitPartsHaveNoComma(text);
    ItemsAreSolid(Split(text));
    ParseFromIsWellFormed(CommaItems(text), map[], None);
  }

  // ---------------------------------------------------------------------
  // Print, then parse
  // ---------------------------------------------------------------------

  function Joined(parts: seq<string>): string
  {
    if parts == [] then "" else "," + parts[0] + Joined(parts[1..])
  }

  /** The text that was taken apart into the given parts. */
  function Whole(parts: seq<string>): string
    requires |parts| >= 1
  {
    parts[0] + Joined(parts[1..])
  }

  lemma WholeOfExtended(c: char, parts: seq<string>)
    requires |parts| >= 1
    ensures Whole(Extended(c, parts)) == [c] + Whole(parts)
  {
    var longer := Extended(c, parts);
    if c == ',' {
      assert longer[1..] == parts;
    } else {
      assert longer[1..] == parts[1..];
    }
  }

  lemma {:induction false} JoinOfSplit(value: string)
    ensures Whole(Split(value)) == value
  {
    if value != "" {
      JoinOfSplit(value[1..]);
      WholeOfExtended(value[0], Split(value[1..]));
      hide Whole, Extended;
      assert value == [value[0]] + value[1..];
    }
  }

  /** The items of one printed pair. */
  function PairItems(pair: Pair): (items: seq<string>)
    ensures |items| >= 1
  {
    var parts := Split(pair.1);
    [pair.0 + "=" + parts[0]] + parts[1..]
  }

  lemma PairItemsAreSplit(pair: Pair)
    requires GoodPair(pair)
    ensures Split(pair.0 + "=" + pair.1) == PairItems(pair)
    ensures forall i :: 0 <= i < |PairItems(pair)| ==> Solid(PairItems(pair)[i])
  {
    var parts := Split(pair.1);
    SplitWithFront(pair.0 + "=", pair.1);
    assert Solid(parts[0]);
  }

  /** Items without `=` grow the current value. */
  lemma {:induction false} GrowsValue(
      parts: seq<string>, rest: seq<string>, pairs: map<string, string>, key: string, value: string)
    requires forall i :: 0 <= i < |parts| ==> '=' !in parts[i]
    ensures ParseFrom(parts + rest, pairs, Some((key, value))) == ParseFrom(rest, pairs, Some((key, value + Joined(parts))))
    decreases parts
  {
    hide SplitOnce, Trim;
    if parts == [] {
      assert parts + rest == rest;
      assert value + Joined(parts) == value;
    } else {
      SplitOnceParts(parts[0]);
      assert (parts + rest)[1..] == parts[1..] + rest;
      GrowsValue(parts[1..], rest, pairs, key, value + "," + parts[0]);
      assert value + "," + parts[0] + Joined(parts[1..]) == value + Joined(parts);
    }
  }

  /** The items of a pair settle what came before and make the pair the current one. */
  lemma ParsesPair(pair: Pair, rest: seq<string>, pairs: map<string, string>, current: Option<Pair>)
    requires GoodPair(pair) && Settled(pairs, current).Ok?
    ensures ParseFrom(PairItems(pair) + rest, pairs, current) ==
            ParseFrom(rest, Settled(pairs, current).value, Some(pair))
  {
    var parts := Split(pair.1);
    assert Solid(parts[0]);
    SplitOnceAtFirst(pair.0, parts[0]);
    TrimIsTrimmed(pair.0);
    TrimIsTrimmed(parts[0]);
    JoinOfSplit(pair.1);
    assert (PairItems(pair) + rest)[1..] == parts[1..] + rest;
    hide Trim, SplitOnce;
    GrowsValue(parts[1..], rest, Settled(pairs, current).value, pair.0, parts[0]);
  }

  function AllItems(pairs: seq<Pair>): seq<string>
  {
    if pairs == [] then [] else PairItems(pairs[0]) + AllItems(pairs[1..])
  }

  lemma {:induction false} PrintedItems(pairs: seq<Pair>)
    requires pairs != [] && forall i :: 0 <= i < |pairs| ==> GoodPair(pairs[i])
    ensures Split(Print(pairs)) == AllItems(pairs)
    ensures forall i :: 0 <= i < |AllItems(pairs)| ==> Solid(AllItems(pairs)[i])
    decreases pairs
  {
    hide GoodPair, Solid, PairItems;
    PairItemsAreSplit(pairs[0]);
    if |pairs| == 1 {
      assert AllItems(pairs[1..]) == [];
      assert AllItems(pairs) == PairItems(pairs[0]);
    } else {
      PrintedItems(pairs[1..]);
      SplitOfJoined(pairs[0].0 + "=" + pairs[0].1, Print(pairs[1..]));
    }
  }

  /** `pairs` and the current pair, then the listed ones. */
  function Collected(pairs: map<string, string>, more: seq<Pair>): map<string, string>
    decreases more
  {
    if more == [] then pairs else Collected(pairs[more[0].0 := more[0].1], more[1..])
  }

  ghost predicate NewKeys(more: seq<Pair>, pairs: map<string, string>)
  {
    && (forall i :: 0 <= i < |more| ==> more[i].0 !in pairs)
    && (forall i, j :: 0 <= i < j < |more| ==> more[i].0 != more[j].0)
  }

  lemma {:induction false} ParsesAll(more: seq<Pair>, pairs: map<string, string>, current: Option<Pair>)
    requires forall i :: 0 <= i < |more| ==> GoodPair(more[i])
    requires Settled(pairs, current).Ok? && NewKeys(more, Settled(pairs, current).value)
    ensures ParseFrom(AllItems(more), pairs, current) == Ok(Collected(Settled(pairs, current).value, more))
    decreases more
  {
    hide GoodPair, PairItems;
    if more != [] {
      var settled := Settled(pairs, current).value;
      ParsesPair(more[0], AllItems(more[1..]), pairs, current);
      assert Settled(settled, Some(more[0])) == Ok(settled[more[0].0 := more[0].1]);
      ParsesAll(more[1..], settled, Some(more[0]));
    }
  }

  /** Printing any list of well-formed pairs with different keys and parsing it gives
      exactly these pairs. */
  lemma PrintThenParse(pairs: seq<Pair>)
    requires forall i :: 0 <= i < |pairs| ==> GoodPair(pairs[i])
    requires forall i, j :: 0 <= i < j < |pairs| ==> pairs[i].0 != pairs[j].0
    ensures Parsed(Print(pairs)) == Ok(Collected(map[], pairs))
  {
    if pairs == [] {
      assert NonBlanks([""]) == [] by {
        assert NonBlank("").None?;
        assert NonBlanks([""][1..]) == [];
      }
    } else {
      hide GoodPair, AllItems, Solid, Print;
      PrintedItems(pairs);
      SolidPartsStay(AllItems(pairs));
      hide NonBlanks;
      ParsesAll(pairs, map[], None);
    }
  }

  lemma {:induction false} CollectedIs(pairs: map<string, string>, more: seq<Pair>)
    requires NewKeys(more, pairs)
    ensures forall key :: key in pairs ==> key in Collected(pairs, more) && Collected(pairs, more)[key] == pairs[key]
    ensures forall i :: 0 <= i < |more| ==> more[i].0 in Collected(pairs, more) && Collected(pairs, more)[more[i].0] == more[i].1
    ensures forall key :: key in Collected(pairs, more) ==> key in pairs || exists i :: 0 <= i < |more| && more[i].0 == key
    decreases more
  {
    if more != [] {
      CollectedIs(pairs[more[0].0 := more[0].1], more[1..]);
    }
  }

  /** Parse undoes print on every well-formed map. */
  lemma RoundTrip(pairs: map<string, string>)
    requires WellFormed(pairs)
    ensures Parsed(Printed(pairs)) == Ok(pairs)
  {
    hide GoodPair, Rows, Parsed, Print, Collected;
    RowsOfTable(pairs);
    var rows := Rows(pairs);
    forall i | 0 <= i < |rows|
      ensures GoodPair(rows[i])
    {
      assert rows[i] in rows && RowIn(rows[i], pairs);
      assert rows[i] == (rows[i].0, pairs[rows[i].0]);
    }
    forall i, j | 0 <= i < j < |rows|
      ensures rows[i].0 != rows[j].0
    {
      BelowIsAsymmetric(rows[i].0, rows[j].0);
    }
    PrintThenParse(rows);
    CollectedIs(map[], rows);
    var back := Collected(map[], rows);
    forall key
      ensures key in back <==> key in pairs
      ensures key in pairs ==> back[key] == pairs[key]
    {
      if key in pairs {
        assert RowIn((key, pairs[key]), pairs);
        var i :| 0 <= i < |rows| && rows[i] == (key, pairs[key]);
        assert rows[i].0 in back;
      }
      if key in back {
        var i :| 0 <= i < |rows| && rows[i].0 == key;
        assert rows[i] in rows && RowIn(rows[i], pairs);
      }
    }
    assert back == pairs;
  }

  /** What was parsed once prints to a text that parses to the same map. */
  lemma ParsePrintParse(text: string)
    requires Parsed(text).Ok?
    ensures WellFormed(Parsed(text).value)
    ensures Parsed(Printed(Parsed(text).value)) == Parsed(text)
  {
    ParsedIsWellFormed(text);
    RoundTrip(Parsed(text).value);
  }

  // ---------------------------------------------------------------------
  // Which texts are accepted
  // ---------------------------------------------------------------------

  /** The key of an item: what stands before its first `=`, trimmed. */
  function KeyOf(item: string): string
  {
    match SplitOnce(item)
    case None => ""
    case Some((key, _)) => Trim(key)
  }

  predicate GoodItem(item: string)
  {
    match SplitOnce(item)
    case None => true
    case Some((key, value)) => Trim(key) != "" && Trim(value) != ""
  }

  /** The items can follow pairs with the keys `seen`; without a pair to continue, the
      first one must be a pair. */
  ghost predicate Accepts(items: seq<string>, seen: set<string>, continues: bool)
  {
    && (items != [] && !continues ==> '=' in items[0])
    && (forall i :: 0 <= i < |items| ==> GoodItem(items[i]))
    && (forall i :: 0 <= i < |items| && '=' in items[i] ==> KeyOf(items[i]) !in seen)
    && (forall i, j :: 0 <= i < j < |items| && '=' in items[i] && '=' in items[j] ==> KeyOf(items[i]) != KeyOf(items[j]))
  }

  /** The first item can be taken and the others can follow it. */
  lemma AcceptsFirst(items: seq<string>, seen: set<string>, continues: bool)
    requires items != []
    ensures var pair := '=' in items[0];
            Accepts(items, seen, continues) <==>
            && (continues || pair) && GoodItem(items[0]) && (pair ==> KeyOf(items[0]) !in seen)
            && Accepts(items[1..], if pair then seen + {KeyOf(items[0])} else seen, true)
  {
    hide GoodItem, KeyOf;
    var rest := items[1..];
    assert items == [items[0]] + rest;
    assert forall i :: 0 <= i < |rest| ==> rest[i] == items[i + 1];
    assert forall i :: 1 <= i < |items| ==> items[i] == rest[i - 1];
  }

  lemma {:induction false} ParseFromAccepts(items: seq<string>, pairs: map<string, string>, current: Option<Pair>)
    ensures ParseFrom(items, pairs, current).Ok? <==>
            && (current.Some? ==> current.value.0 !in pairs)
            && Accepts(items, pairs.Keys + (if current.Some? then {current.value.0} else {}), current.Some?)
    decreases items
  {
    if items != [] {
      SplitOnceParts(items[0]);
      AcceptsFirst(items, pairs.Keys + (if current.Some? then {current.value.0} else {}), current.Some?);
      hide Accepts, Trim, SplitOnce;
      match SplitOnce(items[0]) {
        case Some((key, value)) =>
          if Settled(pairs, current).Ok? {
            var settled := Settled(pairs, current).value;
            ParseFromAccepts(items[1..], settled, Some((Trim(key), Trim(value))));
            assert settled.Keys == pairs.Keys + (if current.Some? then {current.value.0} else {});
          }
        case None =>
          if current.Some? {
            ParseFromAccepts(items[1..], pairs, Some((current.value.0, current.value.1 + "," + items[0])));
          }
      }
    }
  }

  /** A text is accepted if and only if its first item is a pair, no pair has a blank
      key or value, and no key is given twice. */
  lemma AcceptedExactly(text: string)
    ensures var items := CommaItems(text);
            Parsed(text).Ok? <==>
            && (items != [] ==> '=' in items[0])
            && (forall i :: 0 <= i < |items| ==> GoodItem(items[i]))
            && (forall i, j :: 0 <= i < j < |items| && '=' in items[i] && '=' in items[j] ==>
                 KeyOf(items[i]) != KeyOf(items[j]))
  {
    hide ParseFrom, CommaItems, GoodItem, KeyOf;
    ParseFromAccepts(CommaItems(text), map[], None);
  }

  ghost predicate GivenTwice(items: seq<string>, key: string)
  {
    exists i, j :: 0 <= i < j < |items| && '=' in items[i] && '=' in items[j] && KeyOf(items[i]) == key == KeyOf(items[j])
  }

  ghost predicate Given(items: seq<string>, key: string)
  {
    exists i :: 0 <= i < |items| && '=' in items[i] && KeyOf(items[i]) == key
  }

  /** What an error says is true of the items behind the pairs that came before. */
  ghost predicate IsTrue(error: ParseError, items: seq<string>, pairs: map<string, string>, current: Option<Pair>)
  {
    match error
    case EmptyKey(item) => item in items && '=' in item && KeyOf(item) == ""
    case EmptyValue(item) => item in items && SplitOnce(item).Some? && KeyOf(item) != "" && Trim(SplitOnce(item).value.1) == ""
    case NoPair(item) => current.None? && items != [] && item == items[0] && '=' !in item
    case Repeated(key) =>
      || GivenTwice(items, key)
      || (Given(items, key) && (key in pairs || (current.Some? && current.value.0 == key)))
      || (current.Some? && current.value.0 == key && key in pairs)
  }

  lemma TrueBehindFirst(error: ParseError, items: seq<string>, key: string)
    requires items != []
    ensures Given(items[1..], key) ==> Given(items, key)
    ensures GivenTwice(items[1..], key) ==> GivenTwice(items, key)
    ensures '=' in items[0] && KeyOf(items[0]) == key ==> Given(items, key)
    ensures '=' in items[0] && KeyOf(items[0]) == key && Given(items[1..], key) ==> GivenTwice(items, key)
  {
    hide KeyOf;
    assert forall i :: 0 <= i < |items[1..]| ==> items[1..][i] == items[i + 1];
  }

  lemma {:induction false} ErrorsAreTrue(items: seq<string>, pairs: map<string, string>, current: Option<Pair>)
    requires ParseFrom(items, pairs, current).Err?
    ensures IsTrue(ParseFrom(items, pairs, current).error, items, pairs, current)
    decreases items
  {
    var error := ParseFrom(items, pairs, current).error;
    if items != [] {
      SplitOnceParts(items[0]);
      if error.Repeated? {
        TrueBehindFirst(error, items, error.key);
      }
      hide Trim, SplitOnce, Given, GivenTwice;
      match SplitOnce(items[0]) {
        case Some((key, value)) =>
          if Settled(pairs, current).Ok? && Trim(key) != "" && Trim(value) != "" {
            ErrorsAreTrue(items[1..], Settled(pairs, current).value, Some((Trim(key), Trim(value))));
          }
        case None =>
          if current.Some? {
            ErrorsAreTrue(items[1..], pairs, Some((current.value.0, current.value.1 + "," + items[0])));
          }
      }
    }
  }

  /** A refused text has the defect that its error names: a blank key or value, a first
      item that is no pair, or a key that is given twice. */
  lemma RefusalIsTrue(text: string)
    requires Parsed(text).Err?
    ensures var items := CommaItems(text);
            match Parsed(text).error
            case EmptyKey(item) => item in items && '=' in item && KeyOf(item) == ""
            case EmptyValue(item) => item in items && '=' in item && KeyOf(item) != ""
            case NoPair(item) => items != [] && item == items[0] && '=' !in item
            case Repeated(key) => GivenTwice(items, key)
  {
    ErrorsAreTrue(CommaItems(text), map[], None);
    hide ParseFrom, CommaItems, KeyOf, Given, GivenTwice;
    if Parsed(text).error.EmptyValue? {
      SplitOnceParts(Parsed(text).error.item);
    }
  }
}
