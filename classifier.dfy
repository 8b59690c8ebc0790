/** The section classifier of pass 2 (batteryAnalysis.py, lines 56-69): the
    current `mode` moves on whenever a line holds one of six marker texts,
    checked in a fixed order by an `if/elif` chain. */
module Classifier {
  import opened Wrappers
  import opened Text

  /** `mode`: `None` and the five section names of `sections` */
  datatype Mode = NoSection | Aggregated | Background | CollectorDiagnostic | CollectorSinceCharge | Foreground

  const AggregatedMarker := "Per-app stats:"
  const BackgroundMarker := "Per-app stats in background"
  const CollectorMarker := "[Batterystats Collector]"
  const SinceChargeMarker := "Stats since last charge from"
  const ForegroundMarker := "[Foreground App Current Report]"
  const DumpMarker := "DUMP OF SERVICE"

  /** The chain of lines 58-69: the first marker found decides the new mode;
      a line with none keeps the current one. The mode only ever moves to
      the mode of a marker the line holds. */
  function NextMode(mode: Mode, line: string): (r: Mode)
    ensures r == mode || exists i :: 0 <= i < |Transitions| && Contains(line, Transitions[i].0) && r == Transitions[i].1
  {
    if Contains(line, AggregatedMarker) then
      assert Transitions[0] == (AggregatedMarker, Aggregated);
      Aggregated
    else if Contains(line, BackgroundMarker) then
      assert Transitions[1] == (BackgroundMarker, Background);
      Background
    else if Contains(line, CollectorMarker) then
      assert Transitions[2] == (CollectorMarker, CollectorDiagnostic);
      CollectorDiagnostic
    else if Contains(line, SinceChargeMarker) then
      assert Transitions[3] == (SinceChargeMarker, CollectorSinceCharge);
      CollectorSinceCharge
    else if Contains(line, ForegroundMarker) then
      assert Transitions[4] == (ForegroundMarker, Foreground);
      Foreground
    else if Contains(line, DumpMarker) then
      assert Transitions[5] == (DumpMarker, NoSection);
      NoSection
    else mode
  }

  /** The markers with the mode each selects, in the order they are tried */
  const Transitions: seq<(string, Mode)> := [
    (AggregatedMarker, Aggregated),
    (BackgroundMarker, Background),
    (CollectorMarker, CollectorDiagnostic),
    (SinceChargeMarker, CollectorSinceCharge),
    (ForegroundMarker, Foreground),
    (DumpMarker, NoSection)
  ]

  predicate HasMarker(line: string) {
    exists i :: 0 <= i < |Transitions| && Contains(line, Transitions[i].0)
  }

  /** The marker at position `i` of the table is the first one the line holds. */
  ghost predicate FirstMarkerAt(line: string, i: nat) {
    && i < |Transitions|
    && Contains(line, Transitions[i].0)
    && forall j :: 0 <= j < i ==> !Contains(line, Transitions[j].0)
  }

  /** Priority: the mode selected is that of the first marker in table order
      that the line holds, whatever the mode was. */
  lemma TransitionPriority(mode: Mode, line: string, i: nat)
    requires FirstMarkerAt(line, i)
    ensures NextMode(mode, line) == Transitions[i].1
  {
    assert forall j :: 0 <= j < i ==> !Contains(line, Transitions[j].0);
    if i == 0 {
    } else if i == 1 {
      assert !Contains(line, Transitions[0].0);
    } else if i == 2 {
      assert !Contains(line, Transitions[0].0) && !Contains(line, Transitions[1].0);
    } else if i == 3 {
      assert !Contains(line, Transitions[0].0) && !Contains(line, Transitions[1].0);
      assert !Contains(line, Transitions[2].0);
    } else if i == 4 {
      assert !Contains(line, Transitions[0].0) && !Contains(line, Transitions[1].0);
      assert !Contains(line, Transitions[2].0) && !Contains(line, Transitions[3].0);
    } else {
      assert !Contains(line, Transitions[0].0) && !Contains(line, Transitions[1].0);
      assert !Contains(line, Transitions[2].0) && !Contains(line, Transitions[3].0);
      assert !Contains(line, Transitions[4].0);
    }
  }

  /** A line holding some marker has a first one. */
  lemma FirstMarkerExists(line: string) returns (i: nat)
    requires HasMarker(line)
    ensures FirstMarkerAt(line, i)
  {
    var k :| 0 <= k < |Transitions| && Contains(line, Transitions[k].0);
    i := 0;
    while !Contains(line, Transitions[i].0)
      invariant i <= k
      invariant forall j :: 0 <= j < i ==> !Contains(line, Transitions[j].0)
      decreases k - i
    {
      i := i + 1;
    }
  }

  /** A line without a marker leaves the mode as it was. */
  lemma NoMarkerKeepsMode(mode: Mode, line: string)
    requires !HasMarker(line)
    ensures NextMode(mode, line) == mode
  {
    assert forall j :: 0 <= j < |Transitions| ==> !Contains(line, Transitions[j].0);
    assert !Contains(line, Transitions[0].0) && !Contains(line, Transitions[1].0);
    assert !Contains(line, Transitions[2].0) && !Contains(line, Transitions[3].0);
    assert !Contains(line, Transitions[4].0) && !Contains(line, Transitions[5].0);
  }

  /** The new mode of a line holding a marker does not depend on the old one. */
  lemma MarkerDecides(m1: Mode, m2: Mode, line: string)
    requires HasMarker(line)
    ensures NextMode(m1, line) == NextMode(m2, line)
  {
    var i := FirstMarkerExists(line);
    TransitionPriority(m1, line, i);
    TransitionPriority(m2, line, i);
  }

  /** Classifying a line twice is classifying it once. */
  lemma NextModeIdempotent(mode: Mode, line: string)
    ensures NextMode(NextMode(mode, line), line) == NextMode(mode, line)
  {
    if HasMarker(line) {
      MarkerDecides(NextMode(mode, line), mode, line);
    } else {
      NoMarkerKeepsMode(mode, line);
      NoMarkerKeepsMode(NextMode(mode, line), line);
    }
  }

  /** "DUMP OF SERVICE" ends every section, unless the line also holds one of
      the five section markers, which are tried first. */
  lemma DumpResets(mode: Mode, line: string)
    requires Contains(line, DumpMarker)
    requires forall j :: 0 <= j < 5 ==> !Contains(line, Transitions[j].0)
    ensures NextMode(mode, line) == NoSection
  {
    TransitionPriority(mode, line, 5);
  }

  /** The new mode of a line, if it holds a marker */
  function Target(line: string): (r: Option<Mode>)
    ensures r.None? <==> !HasMarker(line)
  {
    if HasMarker(line) then Some(NextMode(NoSection, line)) else None
  }

  /** The transition is fully described by the line's target. */
  lemma NextModeByTarget(mode: Mode, line: string)
    ensures NextMode(mode, line) == Target(line).GetOr(mode)
  {
    if HasMarker(line) {
      MarkerDecides(mode, NoSection, line);
    } else {
      NoMarkerKeepsMode(mode, line);
    }
  }
}
