/** The signing-key refresh as a state machine: many callers that take turns on the
    refresh lock, a background loop that publishes without it, and a clock. A caller
    may be dropped while it holds the lock, by the request timeout or a client that
    went away; its fetch then ends without a record. */
module KeyRefresh {
  import opened Wrappers

  datatype Settings = Settings(minRefreshInterval: nat, failedRefreshCooldown: nat) {
    /** How long a recorded refresh holds the next one off. */
    function Hold(succeeded: bool): nat {
      if succeeded || minRefreshInterval <= failedRefreshCooldown then minRefreshInterval else failedRefreshCooldown
    }
  }

  datatype Record = Record(at: nat, succeeded: bool)

  /** The lock is free, or one caller fetches, or it has published and is about to
      write its record. */
  datatype Phase = Free | Fetching(caller: nat) | Published(caller: nat, metadata: nat)

  datatype End = Ongoing | Done(at: nat, succeeded: bool) | Cancelled(at: nat)

  /** One fetch that a key error started: by whom, when, and how many publications
      there were before it. */
  datatype Fetch = Fetch(caller: nat, start: nat, before: nat, end: End)

  /** What one call returned: metadata, by the number of its publication, or nothing;
      and the number of the fetch that it made, if it made one. */
  datatype Answer = Answer(caller: nat, fetch: Option<nat>, metadata: Option<nat>)

  datatype State = State(
    now: nat, publications: nat, current: Option<nat>, last: Option<Record>, phase: Phase,
    fetches: seq<Fetch>, answers: seq<Answer>)

  const INITIAL := State(0, 0, None, None, Free, [], [])

  datatype Step =
    | Tick(elapsed: nat)
    | Enter(caller: nat)
    | Publish
    | WriteRecord
    | Fail
    | Cancel
    | BackgroundPublish
    | BackgroundFail

  predicate Holds(c: Settings, s: State)
  {
    s.last.Some? && s.now - s.last.value.at < c.Hold(s.last.value.succeeded)
  }

  function Closed(s: State, end: End): seq<Fetch>
    requires s.fetches != []
  {
    s.fetches[|s.fetches| - 1 := s.fetches[|s.fetches| - 1].(end := end)]
  }

  /** One step; a step that cannot happen now leaves the state as it is. */
  function Next(c: Settings, s: State, step: Step): State
  {
    match step
    case Tick(elapsed) => s.(now := s.now + elapsed)
    case Enter(caller) =>
      if s.phase != Free then s
      else if Holds(c, s) then
        s.(answers := s.answers + [Answer(caller, None, if s.last.value.succeeded then s.current else None)])
      else s.(phase := Fetching(caller), fetches := s.fetches + [Fetch(caller, s.now, s.publications, Ongoing)])
    case Publish =>
      if !s.phase.Fetching? then s
      else s.(current := Some(s.publications), publications := s.publications + 1,
              phase := Published(s.phase.caller, s.publications))
    case WriteRecord =>
      if !s.phase.Published? || s.fetches == [] then s
      else s.(last := Some(Record(s.now, true)), phase := Free, fetches := Closed(s, Done(s.now, true)),
              answers := s.answers + [Answer(s.phase.caller, Some(|s.fetches| - 1), Some(s.phase.metadata))])
    case Fail =>
      if !s.phase.Fetching? || s.fetches == [] then s
      else s.(last := Some(Record(s.now, false)), phase := Free, fetches := Closed(s, Done(s.now, false)),
              answers := s.answers + [Answer(s.phase.caller, Some(|s.fetches| - 1), None)])
    case Cancel =>
      if s.phase == Free || s.fetches == [] then s
      else s.(phase := Free, fetches := Closed(s, Cancelled(s.now)))
    case BackgroundPublish => s.(current := Some(s.publications), publications := s.publications + 1)
    case BackgroundFail => s
  }

  function Run(c: Settings, s: State, steps: seq<Step>): State
    decreases steps
  {
    if steps == [] then s else Run(c, Next(c, s, steps[0]), steps[1..])
  }

  // ---------------------------------------------------------------------
  // The invariant
  // ---------------------------------------------------------------------

  /** Only the last fetch can be going on, and it is exactly while the lock is held. */
  ghost predicate OneAtATime(s: State)
  {
    && (forall i :: 0 <= i < |s.fetches| - 1 ==> !s.fetches[i].end.Ongoing?)
    && (s.phase == Free <==> s.fetches == [] || !s.fetches[|s.fetches| - 1].end.Ongoing?)
  }

  /** A fetch starts only after the full hold since every recorded one before it. */
  ghost predicate Spaced(c: Settings, fetches: seq<Fetch>)
  {
    forall i, j :: 0 <= i < j < |fetches| && fetches[i].end.Done? ==>
      fetches[j].start >= fetches[i].end.at + c.Hold(fetches[i].end.succeeded)
  }

  ghost predicate Past(s: State)
  {
    forall i :: 0 <= i < |s.fetches| ==>
      && s.fetches[i].start <= s.now
      && (s.fetches[i].end.Done? ==> s.fetches[i].start <= s.fetches[i].end.at <= s.now)
  }

  /** Fetches are listed in the order of their starts. */
  ghost predicate InOrder(fetches: seq<Fetch>)
  {
    forall i, j :: 0 <= i < j < |fetches| ==> fetches[i].start <= fetches[j].start
  }

  /** The record is that of the last fetch that wrote one; every earlier one has long
      released its hold. */
  ghost predicate Recorded(c: Settings, s: State)
  {
    forall i :: 0 <= i < |s.fetches| && s.fetches[i].end.Done? ==>
      && s.last.Some?
      && (s.last.value == Record(s.fetches[i].end.at, s.fetches[i].end.succeeded)
          || s.last.value.at >= s.fetches[i].end.at + c.Hold(s.fetches[i].end.succeeded))
  }

  ghost predicate Valid(c: Settings, s: State)
  {
    && OneAtATime(s) && Spaced(c, s.fetches) && Past(s) && InOrder(s.fetches) && Recorded(c, s)
    && (s.last.Some? ==> s.last.value.at <= s.now)
    && (s.last.Some? && s.last.value.succeeded ==> s.current.Some?)
    && (s.phase.Published? ==> s.current.Some?)
  }

  lemma StepKeepsValid(c: Settings, s: State, step: Step)
    requires Valid(c, s)
    ensures Valid(c, Next(c, s, step))
  {
    match step {
      case Enter(caller) => EnterKeepsValid(c, s, caller);
      case WriteRecord => CloseKeepsValid(c, s, step);
      case Fail => CloseKeepsValid(c, s, step);
      case Cancel => CloseKeepsValid(c, s, step);
      case Tick(elapsed) =>
      case Publish =>
      case BackgroundPublish =>
      case BackgroundFail =>
    }
  }

  /** A record that no longer holds means that every recorded fetch has released its
      hold. */
  lemma HoldsAreOver(c: Settings, s: State)
    requires Recorded(c, s) && !Holds(c, s)
    ensures forall i :: 0 <= i < |s.fetches| && s.fetches[i].end.Done? ==>
              s.now >= s.fetches[i].end.at + c.Hold(s.fetches[i].end.succeeded)
  {
  }

  lemma EnterKeepsValid(c: Settings, s: State, caller: nat)
    requires Valid(c, s)
    ensures Valid(c, Next(c, s, Enter(caller)))
  {
    var next := Next(c, s, Enter(caller));
    if s.phase == Free && !Holds(c, s) {
      HoldsAreOver(c, s);
      assert Spaced(c, next.fetches) by { hide Recorded, Past, InOrder, OneAtATime; }
      assert Recorded(c, next) by { hide Spaced, Past, InOrder, OneAtATime; }
      assert Past(next) && InOrder(next.fetches) by { hide Spaced, Recorded, OneAtATime; }
      hide Spaced, Recorded, Past, InOrder;
    } else {
      assert next.fetches == s.fetches && next.last == s.last;
      hide Spaced, OneAtATime, InOrder;
    }
  }

  lemma CloseKeepsValid(c: Settings, s: State, step: Step)
    requires Valid(c, s) && (step.WriteRecord? || step.Fail? || step.Cancel?)
    ensures Valid(c, Next(c, s, step))
  {
    var next := Next(c, s, step);
    if next != s {
      var n := |s.fetches| - 1;
      assert next.fetches[..n] == s.fetches[..n] && next.fetches[n].start == s.fetches[n].start;
      assert Spaced(c, next.fetches) by { hide Recorded, Past, InOrder, OneAtATime; }
      assert Past(next) && InOrder(next.fetches) by { hide Spaced, Recorded, OneAtATime; }
      assert OneAtATime(next) by { hide Spaced, Recorded, Past, InOrder; }
      assert Recorded(c, next) by { hide InOrder, OneAtATime; }
      hide Spaced, Recorded, Past, InOrder, OneAtATime;
    }
  }

  lemma {:induction false} RunKeepsValid(c: Settings, s: State, steps: seq<Step>)
    requires Valid(c, s)
    ensures Valid(c, Run(c, s, steps))
    decreases steps
  {
    hide Valid, Next;
    if steps != [] {
      StepKeepsValid(c, s, steps[0]);
      RunKeepsValid(c, Next(c, s, steps[0]), steps[1..]);
    }
  }

  // ---------------------------------------------------------------------
  // Main results
  // ---------------------------------------------------------------------

  /** Over every interleaving, a key-error fetch starts only after the full hold since
      every recorded one ended, and fetches never overlap. */
  lemma FetchesAreSpaced(c: Settings, steps: seq<Step>)
    ensures Spaced(c, Run(c, INITIAL, steps).fetches)
    ensures OneAtATime(Run(c, INITIAL, steps))
  {
    RunKeepsValid(c, INITIAL, steps);
  }

  /** Fetches with a start in the window that were not cancelled, and the latest of
      those starts. */
  function InWindow(fetches: seq<Fetch>, from: nat, width: nat): (nat, nat)
  {
    if fetches == [] then (0, from)
    else
      var (count, latest) := InWindow(fetches[..|fetches| - 1], from, width);
      var f := fetches[|fetches| - 1];
      if from <= f.start <= from + width && !f.end.Cancelled? then (count + 1, f.start) else (count, latest)
  }

  function CancelledInWindow(fetches: seq<Fetch>, from: nat, width: nat): nat
  {
    if fetches == [] then 0
    else
      var f := fetches[|fetches| - 1];
      CancelledInWindow(fetches[..|fetches| - 1], from, width)
      + if from <= f.start <= from + width && f.end.Cancelled? then 1 else 0
  }

  /** The shorter of the two holds. */
  function ShortHold(c: Settings): nat
  {
    c.Hold(false)
  }

  /** `count` starts need all but one of their holds to fit. */
  ghost predicate Fit(count: nat, hold: nat, span: int)
  {
    count > 0 ==> (count - 1) * hold <= span
  }

  lemma NoneFits(hold: nat, span: int)
    ensures Fit(0, hold, span)
  {
  }

  lemma OneMoreFits(count: nat, hold: nat, span: int, longer: int)
    requires Fit(count, hold, span) && longer >= 0
    requires count > 0 ==> longer >= span + hold
    ensures Fit(count + 1, hold, longer)
  {
    if count > 0 {
      assert count * hold == (count - 1) * hold + hold;
    }
  }

  lemma FitBounds(count: nat, hold: nat, width: nat)
    requires hold > 0 && Fit(count, hold, width)
    ensures count <= 1 + width / hold
  {
    if count > 0 {
      var whole := width / hold;
      assert width < whole * hold + hold == (whole + 1) * hold;
      SmallerFactor(count - 1, whole + 1, hold);
    }
  }

  lemma SmallerFactor(a: int, b: int, hold: nat)
    requires a * hold < b * hold
    ensures a < b
  {
    assert (a - b) * hold == a * hold - b * hold;
  }

  ghost predicate StartsAt(fetches: seq<Fetch>, i: int, start: nat)
  {
    0 <= i < |fetches| && fetches[i].start == start && !fetches[i].end.Cancelled?
  }

  lemma {:induction false} WindowCount(c: Settings, fetches: seq<Fetch>, from: nat, width: nat)
    requires Spaced(c, fetches)
    requires forall i :: 0 <= i < |fetches| - 1 ==> !fetches[i].end.Ongoing?
    requires forall i :: 0 <= i < |fetches| && fetches[i].end.Done? ==> fetches[i].start <= fetches[i].end.at
    ensures var window := InWindow(fetches, from, width);
            && from <= window.1 <= from + width
            && Fit(window.0, ShortHold(c), window.1 - from)
            && (window.0 > 0 ==> exists i :: StartsAt(fetches, i, window.1))
  {
    if fetches != [] {
      hide Fit;
      var n := |fetches| - 1;
      WindowCount(c, fetches[..n], from, width);
      var window, f := InWindow(fetches[..n], from, width), fetches[n];
      if window.0 > 0 {
        var i :| StartsAt(fetches[..n], i, window.1);
        assert StartsAt(fetches, i, window.1) && fetches[i].end.Done?;
        assert f.start >= fetches[i].end.at + c.Hold(fetches[i].end.succeeded);
      }
      if from <= f.start <= from + width && !f.end.Cancelled? {
        OneMoreFits(window.0, ShortHold(c), window.1 - from, f.start - from);
        assert StartsAt(fetches, n, f.start);
      }
    } else {
      NoneFits(ShortHold(c), 0);
    }
  }

  /** All starts in the window, cancelled ones too. */
  function StartsInWindow(fetches: seq<Fetch>, from: nat, width: nat): nat
  {
    if fetches == [] then 0
    else
      StartsInWindow(fetches[..|fetches| - 1], from, width)
      + if from <= fetches[|fetches| - 1].start <= from + width then 1 else 0
  }

  lemma {:induction false} StartsAreCounted(fetches: seq<Fetch>, from: nat, width: nat)
    ensures StartsInWindow(fetches, from, width) ==
            InWindow(fetches, from, width).0 + CancelledInWindow(fetches, from, width)
  {
    if fetches != [] {
      StartsAreCounted(fetches[..|fetches| - 1], from, width);
    }
  }

  /** With a positive hold, a window holds at most one more start than the holds that
      fit into it, plus one for every fetch in it whose caller was dropped. */
  lemma RateIsLimited(c: Settings, steps: seq<Step>, from: nat, width: nat)
    requires ShortHold(c) > 0
    ensures var fetches := Run(c, INITIAL, steps).fetches;
            && InWindow(fetches, from, width).0 <= 1 + width / ShortHold(c)
            && StartsInWindow(fetches, from, width) <=
               1 + width / ShortHold(c) + CancelledInWindow(fetches, from, width)
  {
    var s := Run(c, INITIAL, steps);
    RunKeepsValid(c, INITIAL, steps);
    StartsAreCounted(s.fetches, from, width);
    hide Run, InWindow, Spaced, Recorded, Fit;
    WindowCount(c, s.fetches, from, width);
    LongerSpan(InWindow(s.fetches, from, width).0, ShortHold(c), InWindow(s.fetches, from, width).1 - from, width);
    FitBounds(InWindow(s.fetches, from, width).0, ShortHold(c), width);
  }

  lemma LongerSpan(count: nat, hold: nat, span: int, width: int)
    requires Fit(count, hold, span) && span <= width
    ensures Fit(count, hold, width)
  {
  }

  lemma {:induction false} NothingCancelled(c: Settings, s: State, steps: seq<Step>)
    requires Cancel !in steps
    requires forall f :: f in s.fetches ==> !f.end.Cancelled?
    ensures forall f :: f in Run(c, s, steps).fetches ==> !f.end.Cancelled?
    decreases steps
  {
    if steps != [] {
      var next := Next(c, s, steps[0]);
      assert steps[0] != Cancel && Cancel !in steps[1..];
      assert forall f :: f in next.fetches ==> !f.end.Cancelled?;
      NothingCancelled(c, next, steps[1..]);
    }
  }

  // ---------------------------------------------------------------------
  // Who starts a fetch, and what callers get
  // ---------------------------------------------------------------------

  /** The record is that of the latest fetch that ended with one. */
  ghost predicate LatestRecord(s: State)
  {
    match s.last
    case None => forall i :: 0 <= i < |s.fetches| ==> !s.fetches[i].end.Done?
    case Some(record) =>
      exists i :: 0 <= i < |s.fetches| && s.fetches[i].end == Done(record.at, record.succeeded)
                  && forall j :: i < j < |s.fetches| ==> !s.fetches[j].end.Done?
  }

  /** The caller and the metadata of the fetch that is going on. */
  ghost predicate PhaseIsFetch(s: State)
  {
    s.phase != Free ==>
      && s.fetches != [] && s.fetches[|s.fetches| - 1].caller == s.phase.caller
      && s.fetches[|s.fetches| - 1].before <= s.publications
      && (s.phase.Published? ==> s.fetches[|s.fetches| - 1].before <= s.phase.metadata < s.publications)
  }

  /** An answer to fetch `i`: to its caller, with metadata exactly when it succeeded,
      and then with metadata published since it began. */
  ghost predicate AnswersFetch(s: State, k: nat, i: nat)
    requires k < |s.answers| && i < |s.fetches|
  {
    && s.answers[k].fetch == Some(i) && s.answers[k].caller == s.fetches[i].caller
    && s.fetches[i].end.Done?
    && (s.answers[k].metadata.Some? <==> s.fetches[i].end.succeeded)
    && (s.answers[k].metadata.Some? ==> s.fetches[i].before <= s.answers[k].metadata.value < s.publications)
  }

  ghost predicate Answered(s: State, i: nat)
    requires i < |s.fetches|
  {
    exists k :: 0 <= k < |s.answers| && AnswersFetch(s, k, i)
  }

  ghost predicate AnswersMatch(s: State)
  {
    && (forall i :: 0 <= i < |s.fetches| && s.fetches[i].end.Done? ==> Answered(s, i))
    && (forall k :: 0 <= k < |s.answers| && s.answers[k].fetch.Some? ==>
         s.answers[k].fetch.value < |s.fetches| && AnswersFetch(s, k, s.answers[k].fetch.value))
    && (forall k, l :: 0 <= k < l < |s.answers| && s.answers[k].fetch.Some? ==> s.answers[k].fetch != s.answers[l].fetch)
  }

  ghost predicate Accounted(s: State)
  {
    OneAtATime(s) && LatestRecord(s) && PhaseIsFetch(s) && AnswersMatch(s)
  }

  /** Answers stay answers while fetches that ended stay as they are. */
  lemma StillAnswered(s: State, s': State)
    requires AnswersMatch(s)
    requires s.answers <= s'.answers && s.publications <= s'.publications && |s.fetches| <= |s'.fetches|
    requires forall i :: 0 <= i < |s.fetches| && s.fetches[i].end.Done? ==> s'.fetches[i] == s.fetches[i]
    ensures forall i :: 0 <= i < |s.fetches| && s.fetches[i].end.Done? ==> Answered(s', i)
    ensures forall k :: 0 <= k < |s.answers| && s.answers[k].fetch.Some? ==>
              s.answers[k].fetch.value < |s.fetches| && AnswersFetch(s', k, s.answers[k].fetch.value)
  {
    assert forall k :: 0 <= k < |s.answers| ==> s'.answers[k] == s.answers[k];
    forall k | 0 <= k < |s.answers| && s.answers[k].fetch.Some?
      ensures AnswersFetch(s', k, s.answers[k].fetch.value)
    {
      assert AnswersFetch(s, k, s.answers[k].fetch.value);
    }
    forall i | 0 <= i < |s.fetches| && s.fetches[i].end.Done?
      ensures Answered(s', i)
    {
      assert Answered(s, i);
      var k :| 0 <= k < |s.answers| && AnswersFetch(s, k, i);
      assert AnswersFetch(s', k, i);
    }
  }

  /** A step that neither starts nor ends a fetch. */
  lemma QuietStep(s: State, s': State)
    requires Accounted(s) && s'.fetches == s.fetches && s'.last == s.last && s'.publications >= s.publications
    requires s'.answers == s.answers || (s.answers < s'.answers && |s'.answers| == |s.answers| + 1
                                         && s'.answers[|s.answers|].fetch.None?)
    requires (s.phase == Free <==> s'.phase == Free) && PhaseIsFetch(s')
    ensures Accounted(s')
  {
    StillAnswered(s, s');
    hide AnswersFetch, Answered, PhaseIsFetch;
  }

  lemma LatestStays(s: State, s': State)
    requires LatestRecord(s) && s'.last == s.last && |s.fetches| <= |s'.fetches|
    requires forall i :: 0 <= i < |s.fetches| && s.fetches[i].end.Done? ==> s'.fetches[i] == s.fetches[i]
    requires forall i :: 0 <= i < |s'.fetches| && s'.fetches[i].end.Done? ==> i < |s.fetches| && s.fetches[i].end.Done?
    ensures LatestRecord(s')
  {
    if s.last.Some? {
      var i :| 0 <= i < |s.fetches| && s.fetches[i].end == Done(s.last.value.at, s.last.value.succeeded)
        && forall j :: i < j < |s.fetches| ==> !s.fetches[j].end.Done?;
      assert s'.fetches[i].end == Done(s.last.value.at, s.last.value.succeeded);
    }
  }

  lemma StartStep(s: State, s': State, fetch: Fetch, caller: nat)
    requires Accounted(s) && s.phase == Free
    requires s' == s.(phase := Fetching(caller), fetches := s.fetches + [fetch])
    requires fetch.end == Ongoing && fetch.caller == caller && fetch.before == s.publications
    ensures Accounted(s')
  {
    StillAnswered(s, s');
    LatestStays(s, s');
    hide AnswersFetch, Answered, LatestRecord;
  }

  lemma CloseStep(s: State, s': State, end: End)
    requires Accounted(s) && s.phase != Free && s.fetches != []
    requires s'.phase == Free && s'.fetches == Closed(s, end) && s'.publications == s.publications
    requires end.Done? || end.Cancelled?
    requires end.Cancelled? ==> s'.answers == s.answers && s'.last == s.last
    requires end.Done? ==>
               && s'.last == Some(Record(end.at, end.succeeded))
               && s.answers < s'.answers && |s'.answers| == |s.answers| + 1
               && AnswersFetch(s', |s.answers|, |s.fetches| - 1)
    ensures Accounted(s')
  {
    var n := |s.fetches| - 1;
    assert forall i :: 0 <= i < n ==> s'.fetches[i] == s.fetches[i];
    assert !s.fetches[n].end.Done?;
    StillAnswered(s, s');
    if end.Cancelled? {
      LatestStays(s, s');
    } else {
      assert s'.fetches[n].end == Done(end.at, end.succeeded);
      assert LatestRecord(s');
      AnswerIsNew(s, s', n);
    }
    hide AnswersFetch, LatestRecord;
  }

  lemma AnswerIsNew(s: State, s': State, n: nat)
    requires AnswersMatch(s) && n < |s.fetches| == |s'.fetches| && !s.fetches[n].end.Done?
    requires |s'.answers| == |s.answers| + 1 && AnswersFetch(s', |s.answers|, n)
    ensures s'.answers[|s.answers|].fetch == Some(n) && Answered(s', n)
    ensures forall k :: 0 <= k < |s.answers| ==> s.answers[k].fetch != Some(n)
  {
  }

  lemma StepIsAccounted(c: Settings, s: State, step: Step)
    requires Accounted(s)
    ensures Accounted(Next(c, s, step))
  {
    var s' := Next(c, s, step);
    assert s.phase != Free ==> s.fetches != [];
    if s'.fetches == s.fetches {
      assert PhaseIsFetch(s');
      hide OneAtATime, LatestRecord, AnswersMatch, PhaseIsFetch, Accounted;
      QuietStep(s, s');
    } else if step.Enter? {
      hide OneAtATime, LatestRecord, AnswersMatch, PhaseIsFetch, Accounted;
      StartStep(s, s', Fetch(step.caller, s.now, s.publications, Ongoing), step.caller);
    } else {
      var end := if step.WriteRecord? then Done(s.now, true) else if step.Fail? then Done(s.now, false) else Cancelled(s.now);
      assert step.WriteRecord? || step.Fail? ==> AnswersFetch(s', |s.answers|, |s.fetches| - 1);
      hide OneAtATime, LatestRecord, AnswersMatch, PhaseIsFetch, Accounted, AnswersFetch;
      CloseStep(s, s', end);
    }
  }

  lemma {:induction false} RunIsAccounted(c: Settings, s: State, steps: seq<Step>)
    requires Accounted(s)
    ensures Accounted(Run(c, s, steps))
    decreases steps
  {
    hide Accounted, Next;
    if steps != [] {
      StepIsAccounted(c, s, steps[0]);
      RunIsAccounted(c, Next(c, s, steps[0]), steps[1..]);
    }
  }

  /** Over every interleaving, a fetch that ended with a record has exactly one answer,
      to its caller: metadata published since the fetch began when it succeeded, nothing
      when it failed. A fetch that is going on or was dropped has none. */
  lemma FetchersAreAnswered(c: Settings, steps: seq<Step>, i: nat)
    requires i < |Run(c, INITIAL, steps).fetches|
    ensures var s := Run(c, INITIAL, steps);
            if s.fetches[i].end.Done? then
              exists k :: 0 <= k < |s.answers| && AnswersFetch(s, k, i)
                          && forall l :: 0 <= l < |s.answers| && l != k ==> s.answers[l].fetch != Some(i)
            else forall l :: 0 <= l < |s.answers| ==> s.answers[l].fetch != Some(i)
  {
    assert Accounted(INITIAL);
    RunIsAccounted(c, INITIAL, steps);
    var s := Run(c, INITIAL, steps);
    hide Run;
    if s.fetches[i].end.Done? {
      var k :| 0 <= k < |s.answers| && AnswersFetch(s, k, i);
      assert forall l :: 0 <= l < |s.answers| && l != k ==> s.answers[l].fetch != Some(i);
    }
  }

  /** A caller that finds the lock free starts a fetch if and only if no fetch has left a
      record yet, or the record of the latest one is as old as the full interval after
      a success, as the shorter of the interval and the cooldown after a failure. Any
      other caller gets one answer at once: metadata after a success, nothing after a
      failure. */
  lemma ArrivalDecides(c: Settings, steps: seq<Step>, caller: nat)
    requires Run(c, INITIAL, steps).phase == Free
    ensures var s := Run(c, INITIAL, steps);
            var s' := Next(c, s, Enter(caller));
            && LatestRecord(s)
            && var starts := match s.last
                 case None => true
                 case Some(Record(at, true)) => s.now - at >= c.minRefreshInterval
                 case Some(Record(at, false)) => s.now - at >= c.minRefreshInterval || s.now - at >= c.failedRefreshCooldown;
               if starts then
                 && s'.answers == s.answers && s'.phase == Fetching(caller) && |s'.fetches| == |s.fetches| + 1
                 && s'.fetches[..|s.fetches|] == s.fetches
                 && s'.fetches[|s.fetches|].caller == caller && s'.fetches[|s.fetches|].start == s.now
                 && s'.fetches[|s.fetches|].end == Ongoing
               else
                 && s'.fetches == s.fetches && s'.phase == Free && |s'.answers| == |s.answers| + 1
                 && s'.answers[..|s.answers|] == s.answers
                 && s'.answers[|s.answers|].caller == caller
                 && (s'.answers[|s.answers|].metadata.Some? <==> s.last.value.succeeded)
                 && (s.last.value.succeeded ==> s'.answers[|s.answers|].metadata == s.current)
  {
    assert Accounted(INITIAL);
    RunIsAccounted(c, INITIAL, steps);
    RunKeepsValid(c, INITIAL, steps);
    hide Run;
  }

  // ---------------------------------------------------------------------
  // Exactly when the rate holds for all starts
  // ---------------------------------------------------------------------

  /** The promised rate, of all starts, in every window. */
  ghost predicate RateHolds(c: Settings, fetches: seq<Fetch>)
    requires ShortHold(c) > 0
  {
    forall from: nat, width: nat :: StartsInWindow(fetches, from, width) <= 1 + width / ShortHold(c)
  }

  /** Nobody starts a fetch within the short hold after the start of a dropped one. */
  ghost predicate DropsAreFollowedByWaits(c: Settings, fetches: seq<Fetch>)
  {
    forall i :: 0 <= i < |fetches| - 1 && fetches[i].end.Cancelled? ==>
      fetches[i + 1].start >= fetches[i].start + ShortHold(c)
  }

  ghost predicate StartsApart(fetches: seq<Fetch>, hold: nat)
  {
    forall i, j :: 0 <= i < j < |fetches| ==> fetches[j].start >= fetches[i].start + hold
  }

  lemma WaitsSpreadStarts(c: Settings, s: State)
    requires Valid(c, s) && DropsAreFollowedByWaits(c, s.fetches)
    ensures StartsApart(s.fetches, ShortHold(c))
  {
    forall i, j | 0 <= i < j < |s.fetches|
      ensures s.fetches[j].start >= s.fetches[i].start + ShortHold(c)
    {
      assert !s.fetches[i].end.Ongoing?;
      if s.fetches[i].end.Cancelled? {
        assert s.fetches[i + 1].start <= s.fetches[j].start;
      }
    }
  }

  /** Starts that all lie in a narrower window are counted there. */
  lemma {:induction false} NarrowWindow(fetches: seq<Fetch>, from: nat, width: nat, narrow: int)
    requires narrow <= width && forall i :: 0 <= i < |fetches| ==> fetches[i].start <= from + narrow
    ensures narrow >= 0 ==> StartsInWindow(fetches, from, width) == StartsInWindow(fetches, from, narrow)
    ensures narrow < 0 ==> StartsInWindow(fetches, from, width) == 0
  {
    if fetches != [] {
      NarrowWindow(fetches[..|fetches| - 1], from, width, narrow);
    }
  }

  lemma {:induction false} ApartStartsFit(fetches: seq<Fetch>, hold: nat, from: nat, width: nat)
    requires StartsApart(fetches, hold)
    ensures Fit(StartsInWindow(fetches, from, width), hold, width)
    decreases fetches
  {
    hide Fit;
    NoneFits(hold, width);
    if fetches != [] {
      var n := |fetches| - 1;
      var before, start := fetches[..n], fetches[n].start;
      if from <= start <= from + width {
        var narrow := start - from - hold;
        NarrowWindow(before, from, width, narrow);
        if narrow >= 0 {
          ApartStartsFit(before, hold, from, narrow);
        }
        OneMoreFits(StartsInWindow(before, from, width), hold, if narrow >= 0 then narrow else width, start - from);
        LongerSpan(StartsInWindow(fetches, from, width), hold, start - from, width);
      } else {
        ApartStartsFit(before, hold, from, width);
      }
    }
  }

  lemma {:induction false} OneStartCounts(fetches: seq<Fetch>, i: nat, from: nat, width: nat)
    requires i < |fetches| && from <= fetches[i].start <= from + width
    ensures StartsInWindow(fetches, from, width) >= 1
  {
    if i < |fetches| - 1 {
      OneStartCounts(fetches[..|fetches| - 1], i, from, width);
    }
  }

  lemma {:induction false} TwoStartsCount(fetches: seq<Fetch>, i: nat, j: nat, from: nat, width: nat)
    requires i < j < |fetches|
    requires from <= fetches[i].start <= from + width && from <= fetches[j].start <= from + width
    ensures StartsInWindow(fetches, from, width) >= 2
  {
    if j < |fetches| - 1 {
      TwoStartsCount(fetches[..|fetches| - 1], i, j, from, width);
    } else {
      OneStartCounts(fetches[..|fetches| - 1], i, from, width);
    }
  }

  lemma WaitsKeepRate(c: Settings, s: State)
    requires ShortHold(c) > 0 && Valid(c, s) && DropsAreFollowedByWaits(c, s.fetches)
    ensures RateHolds(c, s.fetches)
  {
    WaitsSpreadStarts(c, s);
    hide Fit, Valid, StartsApart, ShortHold;
    forall from: nat, width: nat
      ensures StartsInWindow(s.fetches, from, width) <= 1 + width / ShortHold(c)
    {
      ApartStartsFit(s.fetches, ShortHold(c), from, width);
      FitBounds(StartsInWindow(s.fetches, from, width), ShortHold(c), width);
    }
  }

  lemma RateNeedsWaits(c: Settings, fetches: seq<Fetch>)
    requires ShortHold(c) > 0 && InOrder(fetches) && RateHolds(c, fetches)
    ensures DropsAreFollowedByWaits(c, fetches)
  {
    hide ShortHold;
    forall i | 0 <= i < |fetches| - 1
      ensures fetches[i + 1].start >= fetches[i].start + ShortHold(c)
    {
      var from, width := fetches[i].start, fetches[i + 1].start - fetches[i].start;
      TwoStartsCount(fetches, i, i + 1, from, width);
      assert StartsInWindow(fetches, from, width) <= 1 + width / ShortHold(c);
      assert width / ShortHold(c) >= 1;
    }
  }

  /** The rate holds in every window of a run if and only if every fetch whose caller
      was dropped is followed by a wait of the short hold, counted from its start. */
  lemma RateHoldsExactly(c: Settings, steps: seq<Step>)
    requires ShortHold(c) > 0
    ensures var fetches := Run(c, INITIAL, steps).fetches;
            RateHolds(c, fetches) <==> DropsAreFollowedByWaits(c, fetches)
  {
    var s := Run(c, INITIAL, steps);
    RunKeepsValid(c, INITIAL, steps);
    assert InOrder(s.fetches);
    hide Run, Valid, RateHolds, DropsAreFollowedByWaits, InOrder;
    if DropsAreFollowedByWaits(c, s.fetches) {
      WaitsKeepRate(c, s);
    }
    if RateHolds(c, s.fetches) {
      RateNeedsWaits(c, s.fetches);
    }
  }

  /** So it holds in every run in which no caller is dropped while it fetches. */
  lemma RateWithoutCancellation(c: Settings, steps: seq<Step>)
    requires ShortHold(c) > 0 && Cancel !in steps
    ensures RateHolds(c, Run(c, INITIAL, steps).fetches)
  {
    hide Run, RateHolds;
    RateHoldsExactly(c, steps);
    NothingCancelled(c, INITIAL, steps);
  }

  /** A dropped caller leaves no record, so it does break the rate: any number of
      fetches can start at one instant, whatever the settings. */
  lemma {:induction false} CancellationBreaksRate(c: Settings, count: nat)
    ensures exists steps: seq<Step> :: StartsInWindow(Run(c, INITIAL, steps).fetches, 0, 0) == count
  {
    var steps := seq(2 * count, i => if i % 2 == 0 then Enter(0) else Cancel);
    DroppedCallers(c, INITIAL, steps, count);
    assert StartsInWindow(INITIAL.fetches, 0, 0) == 0;
  }

  lemma {:induction false} DroppedCallers(c: Settings, s: State, steps: seq<Step>, count: nat)
    requires s.now == 0 && s.phase == Free && s.last == None
    requires |steps| == 2 * count && forall i :: 0 <= i < |steps| ==> steps[i] == if i % 2 == 0 then Enter(0) else Cancel
    ensures StartsInWindow(Run(c, s, steps).fetches, 0, 0) == StartsInWindow(s.fetches, 0, 0) + count
    decreases count
  {
    if count > 0 {
      var entered := Next(c, s, steps[0]);
      var dropped := Next(c, entered, steps[1]);
      assert steps[1..][0] == steps[1] && steps[1..][1..] == steps[2..];
      assert dropped.fetches[..|s.fetches|] == s.fetches;
      assert forall i :: 0 <= i < |steps[2..]| ==> steps[2..][i] == steps[i + 2];
      DroppedCallers(c, dropped, steps[2..], count - 1);
    }
  }

  /** How many callers come to the lock. */
  function Arrivals(steps: seq<Step>): nat
  {
    if steps == [] then 0 else (if steps[0].Enter? then 1 else 0) + Arrivals(steps[1..])
  }

  /** Callers that arrive within the hold after a success fetch nothing; each of them
      gets one answer, and every answer is metadata. */
  lemma {:induction false} CallersWithinHold(c: Settings, s: State, steps: seq<Step>)
    requires Valid(c, s) && s.phase == Free && s.last.Some? && s.last.value.succeeded
    requires Run(c, s, steps).now < s.last.value.at + c.minRefreshInterval
    ensures var after := Run(c, s, steps);
            && after.fetches == s.fetches
            && s.answers <= after.answers
            && |after.answers| == |s.answers| + Arrivals(steps)
            && forall i :: |s.answers| <= i < |after.answers| ==> after.answers[i].metadata.Some?
    decreases steps
  {
    if steps != [] {
      var next := Next(c, s, steps[0]);
      StepKeepsValid(c, s, steps[0]);
      hide Valid;
      TimeMovesOn(c, next, steps[1..]);
      CallersWithinHold(c, next, steps[1..]);
    }
  }

  lemma {:induction false} TimeMovesOn(c: Settings, s: State, steps: seq<Step>)
    ensures s.now <= Run(c, s, steps).now
    decreases steps
  {
    if steps != [] {
      TimeMovesOn(c, Next(c, s, steps[0]), steps[1..]);
    }
  }

  /** Readiness, once gained, is never lost. */
  lemma {:induction false} ReadinessIsKept(c: Settings, s: State, steps: seq<Step>)
    requires s.current.Some?
    ensures Run(c, s, steps).current.Some?
    decreases steps
  {
    if steps != [] {
      ReadinessIsKept(c, Next(c, s, steps[0]), steps[1..]);
    }
  }

  /** What callers see is always the latest publication, of a caller or of the loop. */
  lemma {:induction false} CurrentIsLatest(c: Settings, s: State, steps: seq<Step>)
    requires s.current == if s.publications == 0 then None else Some(s.publications - 1)
    ensures var after := Run(c, s, steps);
            after.current == if after.publications == 0 then None else Some(after.publications - 1)
    decreases steps
  {
    if steps != [] {
      CurrentIsLatest(c, Next(c, s, steps[0]), steps[1..]);
    }
  }
}
