/** Trimming and the identifier rule both servers and the clients share. */
module Text {
  import opened Wrappers

  /** Unicode `White_Space`, what `str::trim` removes. */
  predicate IsSpace(ch: char)
  {
    || '\U{9}' <= ch <= '\U{D}' || ch == ' ' || ch == '\U{85}' || ch == '\U{A0}' || ch == '\U{1680}'
    || '\U{2000}' <= ch <= '\U{200A}' || ch == '\U{2028}' || ch == '\U{2029}' || ch == '\U{202F}'
    || ch == '\U{205F}' || ch == '\U{3000}'
  }

  function TrimStart(text: string): string
  {
    if text != "" && IsSpace(text[0]) then TrimStart(text[1..]) else text
  }

  function TrimEnd(text: string): string
  {
    if text != "" && IsSpace(text[|text| - 1]) then TrimEnd(text[..|text| - 1]) else text
  }

  function Trim(text: string): string
  {
    TrimEnd(TrimStart(text))
  }

  predicate Trimmed(text: string)
  {
    text == "" || (!IsSpace(text[0]) && !IsSpace(text[|text| - 1]))
  }

  ghost predicate AllSpaces(text: string)
  {
    forall ch :: ch in text ==> IsSpace(ch)
  }

  /** `inner` is `text` without some blanks at both ends. */
  ghost predicate Within(inner: string, text: string)
  {
    exists first, last :: 0 <= first <= last <= |text| && text[first..last] == inner
                          && AllSpaces(text[..first]) && AllSpaces(text[last..])
  }

  lemma {:induction false} TrimStartIsTrimmed(text: string)
    ensures TrimStart(text) == "" || !IsSpace(TrimStart(text)[0])
    ensures forall ch :: ch in TrimStart(text) ==> ch in text
  {
    if text != "" && IsSpace(text[0]) {
      TrimStartIsTrimmed(text[1..]);
    }
  }

  lemma {:induction false} TrimEndIsTrimmed(text: string)
    requires text == "" || !IsSpace(text[0])
    ensures Trimmed(TrimEnd(text))
    ensures forall ch :: ch in TrimEnd(text) ==> ch in text
  {
    if text != "" && IsSpace(text[|text| - 1]) {
      TrimEndIsTrimmed(text[..|text| - 1]);
    }
  }

  lemma TrimIsTrimmed(text: string)
    ensures Trimmed(Trim(text))
    ensures forall ch :: ch in Trim(text) ==> ch in text
    ensures Trimmed(text) ==> Trim(text) == text
  {
    TrimStartIsTrimmed(text);
    TrimEndIsTrimmed(TrimStart(text));
  }

  lemma {:induction false} TrimStartTakes(text: string)
    returns (taken: string)
    ensures text == taken + TrimStart(text) && AllSpaces(taken)
  {
    if text != "" && IsSpace(text[0]) {
      var more := TrimStartTakes(text[1..]);
      taken := [text[0]] + more;
      assert text == [text[0]] + text[1..];
    } else {
      taken := "";
    }
  }

  lemma {:induction false} TrimEndTakes(text: string)
    returns (taken: string)
    ensures text == TrimEnd(text) + taken && AllSpaces(taken)
  {
    if text != "" && IsSpace(text[|text| - 1]) {
      var more := TrimEndTakes(text[..|text| - 1]);
      taken := more + [text[|text| - 1]];
      assert text == text[..|text| - 1] + [text[|text| - 1]];
    } else {
      taken := "";
    }
  }

  /** Trimming takes the blanks at both ends and nothing else. */
  lemma TrimTakesBlanks(text: string)
    ensures Trimmed(Trim(text)) && Within(Trim(text), text)
  {
    TrimIsTrimmed(text);
    var front := TrimStartTakes(text);
    var back := TrimEndTakes(TrimStart(text));
    hide TrimStart, TrimEnd, AllSpaces;
    assert text == front + (Trim(text) + back);
    var first, last := |front|, |front| + |Trim(text)|;
    assert text[first..last] == Trim(text) && text[..first] == front && text[last..] == back;
  }

  /** What `str::trim` takes as blank. */
  lemma SpacesAreListed(ch: char)
    ensures IsSpace(ch) <==>
            ch in "\U{9}\U{A}\U{B}\U{C}\U{D} \U{85}\U{A0}\U{1680}\U{2000}\U{2001}\U{2002}\U{2003}\U{2004}\U{2005}"
            || ch in "\U{2006}\U{2007}\U{2008}\U{2009}\U{200A}\U{2028}\U{2029}\U{202F}\U{205F}\U{3000}"
  {
  }

  function NonBlank(text: string): Option<string>
  {
    if Trim(text) == "" then None else Some(Trim(text))
  }

  /** Optional text as stored: trimmed, and absent when blank. */
  function OptionalText(text: Option<string>): Option<string>
  {
    match text
    case None => None
    case Some(value) => NonBlank(value)
  }

  /** Optional text is absent when it holds blanks only, and trimmed otherwise. */
  lemma OptionalTextIsTrimmed(text: string)
    ensures OptionalText(None) == None
    ensures OptionalText(Some(text)).None? <==> AllSpaces(text)
    ensures OptionalText(Some(text)).Some? ==>
              var inner := OptionalText(Some(text)).value;
              inner != "" && Trimmed(inner) && Within(inner, text)
  {
    TrimTakesBlanks(text);
    var first, last :| 0 <= first <= last <= |text| && text[first..last] == Trim(text)
      && AllSpaces(text[..first]) && AllSpaces(text[last..]);
    if Trim(text) == "" {
      assert text == text[..first] + text[last..];
    } else {
      assert Trim(text)[0] in text && !IsSpace(Trim(text)[0]);
    }
  }

  const MAX_ID_LEN := 512

  function Utf8Length(text: string): nat
  {
    if text == "" then 0
    else
      (if text[0] < '\U{80}' then 1 else if text[0] < '\U{800}' then 2 else if text[0] < '\U{10000}' then 3 else 4)
      + Utf8Length(text[1..])
  }

  predicate IsControl(ch: char)
  {
    ch <= '\U{1F}' || '\U{7F}' <= ch <= '\U{9F}'
  }

  predicate ValidEntityId(id: string)
  {
    && id != "" && Utf8Length(id) <= MAX_ID_LEN && id != "." && id != ".."
    && '/' !in id && '*' !in id && '?' !in id
    && forall i :: 0 <= i < |id| ==> !IsControl(id[i])
  }

  /** An id is refused when it is empty, longer than 512 bytes, a dot segment of a path,
      or holds a slash, a wildcard or a control character; every other id is accepted. */
  lemma IdsAreSegments(id: string)
    ensures ValidEntityId(id) <==>
            && 1 <= |id| && Utf8Length(id) <= 512 && id !in {".", ".."}
            && forall ch :: ch in id ==>
                 ch !in {'/', '*', '?'} && !(ch < ' ') && !('\U{7F}' <= ch <= '\U{9F}')
  {
    assert (forall i :: 0 <= i < |id| ==> !IsControl(id[i])) <==> (forall ch :: ch in id ==> !IsControl(ch));
  }

  /** The length in bytes of section 3 of RFC 3629. */
  lemma {:induction false} Utf8LengthAdds(a: string, b: string)
    ensures Utf8Length(a + b) == Utf8Length(a) + Utf8Length(b)
    ensures |a| <= Utf8Length(a) <= 4 * |a|
    ensures (forall ch :: ch in a ==> ch < '\U{80}') ==> Utf8Length(a) == |a|
  {
    if a == "" {
      assert a + b == b;
    } else {
      assert (a + b)[1..] == a[1..] + b;
      Utf8LengthAdds(a[1..], b);
      assert a[0] in a && forall ch :: ch in a[1..] ==> ch in a;
    }
  }
}
