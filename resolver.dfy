/** Pass 1 of `analyze_samsung_comprehensive_report` (batteryAnalysis.py,
    lines 40-52): one scan over the lines of the dump that records three
    header values and builds the uid-to-package map.

    A `Package [name]` line puts `name` into a single pending slot; a later
    line with `appId=<digits>` or `userId=<digits>` binds those digits to the
    pending name and empties the slot. The scan is given as a step function
    folded over the lines (`Resolve`) and as the loop the source runs
    (`ResolveIdentifiers`), which is proved to compute the fold. */
module Resolver {
  import opened Wrappers
  import opened Text
  import opened Patterns
  import Classifier

  /* ---------------- header values (lines 43-46) ---------------- */

  const WindowMarker := "Stats from 20"
  const WindowPrefix := "Stats from "
  const StartMarker := "Start clock time:"
  const StartSeparator := "time:"
  const SinceChargePrefix := "Stats since last charge from "

  /** `global_meta["Start"]`, `global_meta["Window"]` and `since_charge_time` */
  datatype Meta = Meta(start: string, window: string, sinceCharge: string)

  const InitialMeta := Meta("Unknown", "Unknown Window", "Unknown Start")

  predicate IsWindowLine(line: string) {
    Contains(line, WindowMarker)
  }

  predicate IsStartLine(line: string) {
    Contains(line, StartMarker)
  }

  predicate IsSinceChargeLine(line: string) {
    Contains(line, Classifier.SinceChargeMarker)
  }

  /** `line.strip().replace("Stats from ", "")` */
  function WindowValue(line: string): (r: string)
    ensures |r| <= |line|
    ensures !Contains(Strip(line), WindowPrefix) ==> r == Strip(line)
  {
    RemoveAll(Strip(line), WindowPrefix)
  }

  /** `line.split("time:")[1].strip()`, on a line holding the start marker,
      where the split always has a second piece */
  function StartValue(line: string): (r: string)
    requires IsStartLine(line)
    ensures !Contains(r, StartSeparator)
    ensures r == [] || (!IsSpace(r[0]) && !IsSpace(r[|r| - 1]))
  {
    assert StartMarker == "Start clock " + StartSeparator;
    ContainsRight(line, "Start clock ", StartSeparator);
    var piece := SecondPiece(line, StartSeparator).value;
    var r := Strip(piece);
    NotContainsInfix(piece, r, StartSeparator);
    r
  }

  /** `line.strip().replace("Stats since last charge from ", "")` */
  function SinceChargeValue(line: string): (r: string)
    ensures |r| <= |line|
    ensures !Contains(Strip(line), SinceChargePrefix) ==> r == Strip(line)
  {
    RemoveAll(Strip(line), SinceChargePrefix)
  }

  /** A text holding `a + b` holds `b`. */
  lemma ContainsRight(s: string, a: string, b: string)
    requires Contains(s, a + b)
    ensures Contains(s, b)
  {
    var i: nat :| i <= |s| && OccursAt(s, a + b, i);
    assert s[i + |a|..i + |a| + |b|] == s[i..i + |a + b|][|a|..];
    assert OccursAt(s, b, i + |a|);
  }

  /** A part of a text that lacks `p` lacks `p` too. */
  lemma NotContainsInfix(s: string, r: string, p: string)
    requires !Contains(s, p)
    requires exists i: nat :: OccursAt(s, r, i)
    ensures !Contains(r, p)
  {
    var i: nat :| OccursAt(s, r, i);
    if Contains(r, p) {
      var j: nat :| j <= |r| && OccursAt(r, p, j);
      assert forall t :: 0 <= t < |p| ==> s[i + j + t] == r[j + t] == p[t];
      assert s[i + j..i + j + |p|] == p;
      assert OccursAt(s, p, i + j);
    }
  }

  /* ---------------- one line (lines 43-49) ---------------- */

  /** What the checks of lines 43-49 find on one line: each header value the
      line sets, the package name of `pkg_pattern` and the digits of
      `id_pattern` */
  datatype LineFacts = LineFacts(start: Option<string>, window: Option<string>, sinceCharge: Option<string>,
                                 pkg: Option<string>, id: Option<string>)

  function Facts(line: string): (r: LineFacts)
    ensures r.pkg.Some? ==> r.pkg.value != []
    ensures r.id.Some? ==> r.id.value != [] && All(r.id.value, IsDigit)
  {
    LineFacts(if IsStartLine(line) then Some(StartValue(line)) else None,
              if IsWindowLine(line) then Some(WindowValue(line)) else None,
              if IsSinceChargeLine(line) then Some(SinceChargeValue(line)) else None,
              SearchPackage(line), SearchId(line))
  }

  /** The per-line findings of every line, in order */
  function FactsOf(lines: seq<string>): (r: seq<LineFacts>)
    ensures |r| == |lines| && forall i :: 0 <= i < |lines| ==> r[i] == Facts(lines[i])
  {
    seq(|lines|, i requires 0 <= i < |lines| => Facts(lines[i]))
  }

  /* ---------------- the scan (lines 40-52) ---------------- */

  /** The scan's state: `current_pkg`, `uid_map` and the header values */
  datatype ResolverState = ResolverState(pending: Option<string>, uidMap: map<string, string>, meta: Meta)

  const Initial := ResolverState(None, map[], InitialMeta)

  /** One iteration of the loop at lines 42-52. The package check runs before
      the id check, so a line carrying both binds its own package. The source
      tests `current_pkg` for truth; a matched package name is never empty, so
      that is the same as the slot being set. */
  function Step(s: ResolverState, f: LineFacts): (r: ResolverState)
    ensures s.uidMap.Keys <= r.uidMap.Keys
    ensures f.id.None? ==> r.uidMap == s.uidMap
    ensures f.id.Some? ==> r.pending.None?
    ensures f.pkg.Some? && f.id.None? ==> r.pending == f.pkg
  {
    var meta := Meta(f.start.GetOr(s.meta.start), f.window.GetOr(s.meta.window),
                     f.sinceCharge.GetOr(s.meta.sinceCharge));
    var pending := if f.pkg.Some? then f.pkg else s.pending;
    if f.id.Some? && pending.Some? then
      ResolverState(None, s.uidMap[f.id.value := pending.value], meta)
    else
      ResolverState(pending, s.uidMap, meta)
  }

  /** The state after the lines whose findings are `fs` */
  function Scan(fs: seq<LineFacts>): ResolverState
    decreases |fs|
  {
    if fs == [] then Initial
    else Step(Scan(fs[..|fs| - 1]), fs[|fs| - 1])
  }

  /** The state after scanning `lines` from the start */
  function Resolve(lines: seq<string>): ResolverState {
    Scan(FactsOf(lines))
  }

  lemma ScanSnoc(fs: seq<LineFacts>, i: nat)
    requires i < |fs|
    ensures Scan(fs[..i + 1]) == Step(Scan(fs[..i]), fs[i])
  {
    assert fs[..i + 1][..i] == fs[..i];
  }

  /** The body of the loop (lines 43-52) on one line: the header checks, then
      the package match, then the id match. */
  method ScanLine(line: string, currentPkg: Option<string>, uidMap: map<string, string>, meta: Meta)
    returns (currentPkg': Option<string>, uidMap': map<string, string>, meta': Meta)
    ensures ResolverState(currentPkg', uidMap', meta') == Step(ResolverState(currentPkg, uidMap, meta), Facts(line))
  {
    ghost var f := Facts(line);
    meta' := meta;
    if IsWindowLine(line) {
      meta' := meta'.(window := WindowValue(line));
    }
    if IsStartLine(line) {
      meta' := meta'.(start := StartValue(line));
    }
    if IsSinceChargeLine(line) {
      meta' := meta'.(sinceCharge := SinceChargeValue(line));
    }
    currentPkg', uidMap' := currentPkg, uidMap;
    var pMatch := SearchPackage(line);
    if pMatch.Some? {
      currentPkg' := pMatch;
    }
    var iMatch := SearchId(line);
    if iMatch.Some? && currentPkg'.Some? {
      uidMap' := uidMap'[iMatch.value := currentPkg'.value];
      currentPkg' := None;
    }
    assert f.pkg == pMatch && f.id == iMatch;
    assert meta' == Step(ResolverState(currentPkg, uidMap, meta), f).meta;
  }

  /** The loop of lines 40-52, over every line in turn. */
  method ResolveIdentifiers(lines: seq<string>) returns (uidMap: map<string, string>, meta: Meta)
    ensures uidMap == Resolve(lines).uidMap && meta == Resolve(lines).meta
  {
    meta := InitialMeta;
    var currentPkg: Option<string> := None;
    uidMap := map[];
    ghost var fs := FactsOf(lines);
    var i := 0;
    while i < |lines|
      invariant 0 <= i <= |lines|
      invariant Scan(fs[..i]) == ResolverState(currentPkg, uidMap, meta)
    {
      currentPkg, uidMap, meta := ScanLine(lines[i], currentPkg, uidMap, meta);
      ScanSnoc(fs, i);
      i := i + 1;
    }
    assert fs[..|lines|] == fs;
  }

  /* ---------------- what the scan computes, stated without the fold ---------------- */

  /** The index of the last element satisfying `p` */
  function LastWhere<T>(s: seq<T>, p: T -> bool): (r: Option<nat>)
    ensures r.Some? ==> r.value < |s| && p(s[r.value])
    ensures r.Some? ==> forall i :: r.value < i < |s| ==> !p(s[i])
    ensures r.None? ==> forall i :: 0 <= i < |s| ==> !p(s[i])
    decreases |s|
  {
    if s == [] then None
    else if p(s[|s| - 1]) then Some(|s| - 1)
    else
      var r := LastWhere(s[..|s| - 1], p);
      assert forall i :: 0 <= i < |s| - 1 ==> s[..|s| - 1][i] == s[i];
      r
  }

  predicate HasPackage(f: LineFacts) {
    f.pkg.Some?
  }

  /** No line from index `j` on carries an id. */
  ghost predicate NoIdFrom(fs: seq<LineFacts>, j: nat) {
    forall i :: j <= i < |fs| ==> fs[i].id.None?
  }

  /** The package still pending after the lines `fs`: that of the last package
      line, provided no line from there on carried an id. */
  ghost function Pending(fs: seq<LineFacts>): Option<string> {
    var j := LastWhere(fs, HasPackage);
    if j.Some? && NoIdFrom(fs, j.value) then fs[j.value].pkg else None
  }

  /** The name line `k` binds to its id: its own package, else the pending one */
  ghost function BoundName(fs: seq<LineFacts>, k: nat): Option<string>
    requires k < |fs|
  {
    if fs[k].pkg.Some? then fs[k].pkg else Pending(fs[..k])
  }

  /** Line `k` adds a binding for its id. */
  ghost predicate Binds(fs: seq<LineFacts>, k: nat)
    requires k < |fs|
  {
    fs[k].id.Some? && BoundName(fs, k).Some?
  }

  lemma PrefixFacts(fs: seq<LineFacts>, k: nat)
    requires k < |fs| - 1
    ensures fs[..|fs| - 1][k] == fs[k]
    ensures fs[..|fs| - 1][..k] == fs[..k]
  {
  }

  /** The pending slot holds the package of the last package line exactly
      when no id line has come since (that line included). */
  lemma {:induction false} PendingAfter(fs: seq<LineFacts>)
    ensures Scan(fs).pending == Pending(fs)
    decreases |fs|
  {
    if fs != [] {
      var n := |fs| - 1;
      var prev := fs[..n];
      PendingAfter(prev);
      var j := LastWhere(fs, HasPackage);
      if fs[n].id.None? && fs[n].pkg.None? {
        assert j == LastWhere(prev, HasPackage);
        if j.Some? {
          PrefixFacts(fs, j.value);
          assert NoIdFrom(fs, j.value) == NoIdFrom(prev, j.value) by {
            assert forall i :: j.value <= i < n ==> prev[i] == fs[i];
          }
        }
      } else if fs[n].id.Some? && j.Some? {
        assert !NoIdFrom(fs, j.value) by {
          assert j.value <= n;
        }
      }
    }
  }

  /** No line after `k` binds the id line `k` binds. */
  ghost predicate LastBinding(fs: seq<LineFacts>, k: nat)
    requires k < |fs| && Binds(fs, k)
  {
    forall k' :: k < k' < |fs| && Binds(fs, k') ==> fs[k'].id.value != fs[k].id.value
  }

  /** `uid` is in the map exactly when some line binds it, and its name is the
      one bound by the last such line. */
  ghost predicate MapMatchesBindings(fs: seq<LineFacts>, m: map<string, string>) {
    && (forall u :: u in m <==> exists k :: 0 <= k < |fs| && Binds(fs, k) && fs[k].id.value == u)
    && (forall k :: 0 <= k < |fs| && Binds(fs, k) && LastBinding(fs, k) ==>
          fs[k].id.value in m && m[fs[k].id.value] == BoundName(fs, k).value)
  }

  /** The last line binds exactly when the step adds to the map, and with the
      same name. */
  lemma LastLineBinds(fs: seq<LineFacts>)
    requires fs != []
    ensures var n := |fs| - 1; var s := Scan(fs[..n]);
      && (Binds(fs, n) ==> Scan(fs).uidMap == s.uidMap[fs[n].id.value := BoundName(fs, n).value])
      && (!Binds(fs, n) ==> Scan(fs).uidMap == s.uidMap)
  {
    PendingAfter(fs[..|fs| - 1]);
  }

  lemma EarlierBinds(fs: seq<LineFacts>, k: nat)
    requires k < |fs| - 1
    ensures Binds(fs, k) == Binds(fs[..|fs| - 1], k)
    ensures Binds(fs, k) ==> BoundName(fs, k) == BoundName(fs[..|fs| - 1], k)
  {
    PrefixFacts(fs, k);
  }

  lemma {:induction false} MapSoundness(fs: seq<LineFacts>)
    ensures MapMatchesBindings(fs, Scan(fs).uidMap)
    decreases |fs|
  {
    if fs != [] {
      var n := |fs| - 1;
      MapSoundness(fs[..n]);
      LastLineBinds(fs);
      EarlierAll(fs);
      KeysStep(fs, Scan(fs[..n]).uidMap, Scan(fs).uidMap);
      NamesStep(fs, Scan(fs[..n]).uidMap, Scan(fs).uidMap);
    }
  }

  /** Bindings of the lines before the last one, seen from all the lines */
  ghost predicate SameEarlierBindings(fs: seq<LineFacts>)
    requires fs != []
  {
    var n := |fs| - 1;
    forall k :: 0 <= k < n ==>
      && Binds(fs, k) == Binds(fs[..n], k) && fs[k] == fs[..n][k]
      && (Binds(fs, k) ==> BoundName(fs, k) == BoundName(fs[..n], k))
  }

  lemma EarlierAll(fs: seq<LineFacts>)
    requires fs != []
    ensures SameEarlierBindings(fs)
  {
    forall k | 0 <= k < |fs| - 1
      ensures Binds(fs, k) == Binds(fs[..|fs| - 1], k) && fs[k] == fs[..|fs| - 1][k]
      ensures Binds(fs, k) ==> BoundName(fs, k) == BoundName(fs[..|fs| - 1], k)
    {
      EarlierBinds(fs, k);
    }
  }

  lemma KeysStep(fs: seq<LineFacts>, m0: map<string, string>, m: map<string, string>)
    requires fs != [] && SameEarlierBindings(fs)
    requires MapMatchesBindings(fs[..|fs| - 1], m0)
    requires var n := |fs| - 1;
      && (Binds(fs, n) ==> m == m0[fs[n].id.value := BoundName(fs, n).value])
      && (!Binds(fs, n) ==> m == m0)
    ensures forall u :: u in m <==> exists k :: 0 <= k < |fs| && Binds(fs, k) && fs[k].id.value == u
  {
    var n := |fs| - 1;
    var prev := fs[..n];
    forall u
      ensures u in m <==> exists k :: 0 <= k < |fs| && Binds(fs, k) && fs[k].id.value == u
    {
      if u in m {
        if !(Binds(fs, n) && fs[n].id.value == u) {
          var k :| 0 <= k < n && Binds(prev, k) && prev[k].id.value == u;
          assert Binds(fs, k);
        }
      }
      if exists k :: 0 <= k < |fs| && Binds(fs, k) && fs[k].id.value == u {
        var k :| 0 <= k < |fs| && Binds(fs, k) && fs[k].id.value == u;
        if k < n {
          assert Binds(prev, k) && prev[k].id.value == u;
        }
      }
    }
  }

  lemma NamesStep(fs: seq<LineFacts>, m0: map<string, string>, m: map<string, string>)
    requires fs != [] && SameEarlierBindings(fs)
    requires MapMatchesBindings(fs[..|fs| - 1], m0)
    requires var n := |fs| - 1;
      && (Binds(fs, n) ==> m == m0[fs[n].id.value := BoundName(fs, n).value])
      && (!Binds(fs, n) ==> m == m0)
    ensures forall k :: 0 <= k < |fs| && Binds(fs, k) && LastBinding(fs, k) ==>
          fs[k].id.value in m && m[fs[k].id.value] == BoundName(fs, k).value
  {
    var n := |fs| - 1;
    var prev := fs[..n];
    forall k | 0 <= k < |fs| && Binds(fs, k) && LastBinding(fs, k)
      ensures fs[k].id.value in m && m[fs[k].id.value] == BoundName(fs, k).value
    {
      if k < n {
        LastBindingPrefix(fs, k);
      }
    }
  }

  lemma LastBindingPrefix(fs: seq<LineFacts>, k: nat)
    requires fs != [] && SameEarlierBindings(fs)
    requires k < |fs| - 1 && Binds(fs, k) && LastBinding(fs, k)
    ensures Binds(fs[..|fs| - 1], k) && LastBinding(fs[..|fs| - 1], k)
  {
    var prev := fs[..|fs| - 1];
    forall k' | k < k' < |prev| && Binds(prev, k')
      ensures prev[k'].id.value != prev[k].id.value
    {
      assert Binds(fs, k');
    }
  }

  /** Of several package lines before an id line, the most recent is bound:
      line `j` names a package, lines strictly between carry neither a package
      nor an id, and line `k` carries only an id. */
  lemma LatestPackageBinds(fs: seq<LineFacts>, j: nat, k: nat)
    requires j < k < |fs|
    requires fs[j].pkg.Some? && fs[j].id.None?
    requires forall i :: j < i < k ==> fs[i].pkg.None? && fs[i].id.None?
    requires fs[k].pkg.None? && fs[k].id.Some?
    ensures Scan(fs[..k + 1]).uidMap == Scan(fs[..k]).uidMap[fs[k].id.value := fs[j].pkg.value]
    ensures Scan(fs[..k + 1]).pending.None?
  {
    var pre := fs[..k];
    ScanSnoc(fs, k);
    PendingAfter(pre);
    assert LastWhere(pre, HasPackage) == Some(j) by {
      assert forall i :: j <= i < k ==> pre[i] == fs[i];
    }
    assert NoIdFrom(pre, j) by {
      assert forall i :: j <= i < k ==> pre[i] == fs[i];
    }
  }

  /** A line carrying both a package and an id binds them at once, whatever
      was pending before. */
  lemma {:induction false} SameLinePackageAndId(fs: seq<LineFacts>, f: LineFacts)
    requires f.pkg.Some? && f.id.Some?
    ensures Scan(fs + [f]).uidMap == Scan(fs).uidMap[f.id.value := f.pkg.value]
    ensures Scan(fs + [f]).pending.None?
  {
    assert (fs + [f])[..|fs|] == fs;
  }

  /** An id line with no package pending and none of its own changes nothing
      in the map. */
  lemma {:induction false} OrphanIdIgnored(fs: seq<LineFacts>, f: LineFacts)
    requires Scan(fs).pending.None? && f.pkg.None?
    ensures Scan(fs + [f]).uidMap == Scan(fs).uidMap
    ensures Scan(fs + [f]).pending.None?
  {
    assert (fs + [f])[..|fs|] == fs;
  }

  /** Without any package line the map stays empty. */
  lemma {:induction false} NoPackageNoBinding(fs: seq<LineFacts>)
    requires forall i :: 0 <= i < |fs| ==> fs[i].pkg.None?
    ensures Scan(fs).uidMap == map[] && Scan(fs).pending.None?
    decreases |fs|
  {
    if fs != [] {
      var n := |fs| - 1;
      assert forall i :: 0 <= i < n ==> fs[..n][i] == fs[i];
      NoPackageNoBinding(fs[..n]);
    }
  }

  predicate HasStart(f: LineFacts) {
    f.start.Some?
  }

  predicate HasWindow(f: LineFacts) {
    f.window.Some?
  }

  predicate HasSinceCharge(f: LineFacts) {
    f.sinceCharge.Some?
  }

  /** The start header is taken from the last line that sets it, and keeps
      its initial text when no line does. */
  lemma {:induction false} StartLastMatchWins(fs: seq<LineFacts>)
    ensures var t := LastWhere(fs, HasStart);
      Scan(fs).meta.start == if t.Some? then fs[t.value].start.value else InitialMeta.start
    decreases |fs|
  {
    if fs != [] {
      var n := |fs| - 1;
      StartLastMatchWins(fs[..n]);
      var t := LastWhere(fs, HasStart);
      if t.Some? && t.value < n {
        PrefixFacts(fs, t.value);
      }
    }
  }

  /** Likewise the window header */
  lemma {:induction false} WindowLastMatchWins(fs: seq<LineFacts>)
    ensures var w := LastWhere(fs, HasWindow);
      Scan(fs).meta.window == if w.Some? then fs[w.value].window.value else InitialMeta.window
    decreases |fs|
  {
    if fs != [] {
      var n := |fs| - 1;
      WindowLastMatchWins(fs[..n]);
      var w := LastWhere(fs, HasWindow);
      if w.Some? && w.value < n {
        PrefixFacts(fs, w.value);
      }
    }
  }

  /** Likewise the since-charge header */
  lemma {:induction false} SinceChargeLastMatchWins(fs: seq<LineFacts>)
    ensures var c := LastWhere(fs, HasSinceCharge);
      Scan(fs).meta.sinceCharge == if c.Some? then fs[c.value].sinceCharge.value else InitialMeta.sinceCharge
    decreases |fs|
  {
    if fs != [] {
      var n := |fs| - 1;
      SinceChargeLastMatchWins(fs[..n]);
      var c := LastWhere(fs, HasSinceCharge);
      if c.Some? && c.value < n {
        PrefixFacts(fs, c.value);
      }
    }
  }

  /** The window header of a line `Stats from <x>`, padded with whitespace,
      is `x`. */
  lemma WindowValueOf(w1: string, x: string, w2: string)
    requires All(w1, IsSpace) && All(w2, IsSpace)
    requires !Contains(x, WindowPrefix)
    requires x != [] && !IsSpace(x[|x| - 1])
    ensures WindowValue(w1 + (WindowPrefix + x) + w2) == x
  {
    var body := WindowPrefix + x;
    assert body[0] == 'S' && body[|body| - 1] == x[|x| - 1];
    StripPadded(w1, body, w2);
    RemoveAllLeading(WindowPrefix, x);
  }

  /** `Start clock ` does not hold the separator. */
  lemma StartLeadFree()
    ensures !Contains("Start clock ", StartSeparator)
  {
    var t := "Start clock ";
    forall i: nat | i <= |t|
      ensures !OccursAt(t, StartSeparator, i)
    {
      if i + 5 <= |t| {
        assert t[i..i + 5][0] == t[i] && t[i..i + 5][1] == t[i + 1];
      }
    }
  }

  /** The start value is the stripped text between the first `time:` of the
      line and the next one, or the end of the line. */
  lemma StartValuePiece(line: string)
    requires IsStartLine(line)
    ensures exists p :: IsSecondPiece(line, StartSeparator, p) && StartValue(line) == Strip(p)
  {
    assert StartMarker == "Start clock " + StartSeparator;
    ContainsRight(line, "Start clock ", StartSeparator);
    var p := SecondPiece(line, StartSeparator).value;
    assert IsSecondPiece(line, StartSeparator, p) && StartValue(line) == Strip(p);
  }

  /** The piece after the first `time:` of a start line runs to the next
      `time:` or the end of the line. */
  lemma StartPieceOf(a: string, x: string, z: string)
    requires !Contains(a, StartSeparator) && !Contains(x, StartSeparator)
    requires z == [] || StartsWith(z, StartSeparator)
    ensures SecondPiece(a + StartMarker + x + z, StartSeparator) == Some(x)
  {
    var lead := "Start clock ";
    assert a + StartMarker + x + z == (a + lead) + StartSeparator + x + z by {
      assert StartMarker == lead + StartSeparator;
    }
    StartLeadFree();
    NotContainsConcat(a, lead, StartSeparator);
    SecondPieceOf(a + lead, StartSeparator, x, z);
  }

  lemma StartLineOf(a: string, x: string, z: string)
    ensures IsStartLine(a + StartMarker + x + z)
  {
    var line := a + StartMarker + x + z;
    assert line[|a|..|a| + |StartMarker|] == StartMarker;
    assert OccursAt(line, StartMarker, |a|);
  }

  /** A start line yields the stripped text after its first `time:`, up to
      the next `time:` or the end of the line. */
  lemma StartValueOf(a: string, x: string, z: string)
    requires !Contains(a, StartSeparator) && !Contains(x, StartSeparator)
    requires z == [] || StartsWith(z, StartSeparator)
    ensures IsStartLine(a + StartMarker + x + z)
    ensures StartValue(a + StartMarker + x + z) == Strip(x)
  {
    StartPieceOf(a, x, z);
    StartLineOf(a, x, z);
    StartValuePiece(a + StartMarker + x + z);
  }

  /** A since-charge line yields its stripped text with the prefix removed. */
  lemma SinceChargeValueOf(w1: string, x: string, w2: string)
    requires All(w1, IsSpace) && All(w2, IsSpace)
    requires !Contains(x, SinceChargePrefix)
    requires x != [] && !IsSpace(x[|x| - 1])
    ensures SinceChargeValue(w1 + (SinceChargePrefix + x) + w2) == x
  {
    var body := SinceChargePrefix + x;
    assert body[0] == 'S' && body[|body| - 1] == x[|x| - 1];
    StripPadded(w1, body, w2);
    RemoveAllLeading(SinceChargePrefix, x);
  }
}
