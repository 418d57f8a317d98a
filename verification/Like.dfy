/** The prefix filter of the PostgreSQL lists: an escaped `LIKE` pattern. */
module Like {
  import opened Keys

  const ESCAPE := '\\'

  predicate IsSpecial(ch: char)
  {
    ch == ESCAPE || ch == '%' || ch == '_'
  }

  function EscapedChar(ch: char): string
  {
    if IsSpecial(ch) then [ESCAPE, ch] else [ch]
  }

  function Escaped(prefix: string): string
  {
    if prefix == "" then "" else EscapedChar(prefix[0]) + Escaped(prefix[1..])
  }

  /** The backslash is the escape, and it escapes itself, `%` and `_`. */
  lemma EscapesAreBackslashes(ch: char)
    ensures EscapedChar(ch) == if ch in {'\\', '%', '_'} then "\\" + [ch] else [ch]
  {
  }

  lemma {:induction false} EscapedSnoc(prefix: string, ch: char)
    ensures Escaped(prefix + [ch]) == Escaped(prefix) + EscapedChar(ch)
  {
    var longer := prefix + [ch];
    hide EscapedChar;
    if prefix == "" {
      assert longer[1..] == "";
    } else {
      EscapedSnoc(prefix[1..], ch);
      assert longer[1..] == prefix[1..] + [ch];
    }
  }

  method EscapeLikePrefix(prefix: string) returns (out: string)
    ensures out == Escaped(prefix)
  {
    out := "";
    for i := 0 to |prefix|
      invariant out == Escaped(prefix[..i])
    {
      EscapedSnoc(prefix[..i], prefix[i]);
      assert prefix[..i + 1] == prefix[..i] + [prefix[i]];
      if IsSpecial(prefix[i]) {
        out := out + [ESCAPE];
      }
      out := out + [prefix[i]];
    }
    assert prefix[..|prefix|] == prefix;
  }

  function LikePattern(prefix: string): string
  {
    Escaped(prefix) + "%"
  }

  /** `text LIKE pattern ESCAPE '\'`, section 8.5 of ISO/IEC 9075-2. A pattern with
      a dangling escape matches nothing. */
  predicate Matches(text: string, pattern: string)
    decreases |text| + |pattern|
  {
    if pattern == "" then text == ""
    else if pattern[0] == ESCAPE then
      |pattern| >= 2 && text != "" && text[0] == pattern[1] && Matches(text[1..], pattern[2..])
    else if pattern[0] == '%' then
      Matches(text, pattern[1..]) || (text != "" && Matches(text[1..], pattern))
    else
      text != "" && (pattern[0] == '_' || pattern[0] == text[0]) && Matches(text[1..], pattern[1..])
  }

  /** Every escape is followed by a character that may be escaped. */
  predicate WellFormed(pattern: string)
  {
    pattern == "" ||
    if pattern[0] == ESCAPE then |pattern| >= 2 && IsSpecial(pattern[1]) && WellFormed(pattern[2..])
    else WellFormed(pattern[1..])
  }

  lemma {:induction false} PercentMatchesAnything(text: string)
    ensures Matches(text, "%")
  {
    if text != "" {
      PercentMatchesAnything(text[1..]);
    }
  }

  /** The pattern of a prefix means "starts with", whatever the prefix holds. */
  lemma {:induction false} LikeIsStartsWith(text: string, prefix: string)
    ensures Matches(text, LikePattern(prefix)) <==> StartsWith(text, prefix)
    ensures WellFormed(LikePattern(prefix))
  {
    var pattern := LikePattern(prefix);
    if prefix == "" {
      PercentMatchesAnything(text);
      assert pattern == "%";
    } else {
      var rest := LikePattern(prefix[1..]);
      var width := if IsSpecial(prefix[0]) then 2 else 1;
      assert pattern[width..] == rest;
      LikeIsStartsWith(if text == "" then "" else text[1..], prefix[1..]);
      if text != "" {
        assert StartsWith(text, prefix) <==> text[0] == prefix[0] && StartsWith(text[1..], prefix[1..]) by {
          assert prefix == [prefix[0]] + prefix[1..];
          if |prefix| <= |text| {
            assert text[..|prefix|] == [text[0]] + text[1..][..|prefix| - 1];
          }
        }
      }
    }
  }
}
