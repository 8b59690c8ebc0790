/** Pass 2 of `analyze_samsung_comprehensive_report` (batteryAnalysis.py,
    lines 55-89): a second scan over the same lines. Each line first moves
    the mode (module Classifier), then is offered to the row pattern of the
    new mode. Key=value rows go into the per-uid dictionaries of the two
    "Per-app stats" sections, where a later row for the same uid replaces the
    earlier one; collector and foreground rows are appended to lists. */
module Extractor {
  import opened Wrappers
  import opened Text
  import opened Patterns
  import opened Classifier
  import opened Resolver

  /** A row dictionary: column name to text */
  type Row = map<string, string>

  /** One of `sections["Aggregated_Stats"]` and `sections["Background_Stats"]`:
      a Python dict, whose values come out in the order their keys were first
      inserted. */
  datatype KvSection = KvSection(order: seq<string>, rows: map<string, Row>) {

    /** The keys in `order` are distinct and are exactly those of `rows`. */
    ghost predicate Valid() {
      && (forall i, j :: 0 <= i < j < |order| ==> order[i] != order[j])
      && (forall u :: u in rows <==> u in order)
    }

    /** `d[uid] = row`: a new key goes last, a known one keeps its place. */
    function Put(uid: string, row: Row): (r: KvSection)
      ensures Valid() ==> r.Valid()
      ensures r.rows.Keys == rows.Keys + {uid} && r.rows[uid] == row
      ensures forall u :: u in rows && u != uid ==> r.rows[u] == rows[u]
      ensures uid in rows ==> r.order == order
      ensures uid !in rows ==> r.order == order + [uid]
    {
      KvSection(if uid in rows then order else order + [uid], rows[uid := row])
    }

    /** `d.values()` */
    function Values(): (r: seq<Row>)
      requires Valid()
      ensures |r| == |order| && forall i :: 0 <= i < |order| ==> r[i] == rows[order[i]]
    {
      seq(|order|, i requires 0 <= i < |order| && Valid() => rows[order[i]])
    }
  }

  const EmptySection := KvSection([], map[])

  /** A dictionary holds one entry per distinct uid. */
  lemma SectionSize(s: KvSection)
    requires s.Valid()
    ensures |s.order| == |s.rows|
  {
    DistinctCount(s.order);
    assert s.rows.Keys == set u | u in s.order;
  }

  lemma {:induction false} DistinctCount(order: seq<string>)
    requires forall i, j :: 0 <= i < j < |order| ==> order[i] != order[j]
    ensures |set u | u in order| == |order|
    decreases |order|
  {
    if order != [] {
      var n := |order| - 1;
      var prev := order[..n];
      DistinctCount(prev);
      assert (set u | u in order) == (set u | u in prev) + {order[n]};
      assert order[n] !in prev;
    }
  }

  /* ---------------- one key=value row (lines 72-77) ---------------- */

  const SystemPrefix := "System:"

  /** `uid_map.get(uid, f"System:{uid}")` */
  function NameOf(uid: string, uidMap: map<string, string>): (r: string)
    ensures uid in uidMap ==> r == uidMap[uid]
    ensures uid !in uidMap ==> StartsWith(r, SystemPrefix) && r[|SystemPrefix|..] == uid
  {
    if uid in uidMap then uidMap[uid] else SystemPrefix + uid
  }

  /** `{"uid": uid, "pkg": ..., "mah": mah}` */
  function BaseRow(m: KvMatch, uidMap: map<string, string>): Row {
    map["uid" := m.uid, "pkg" := NameOf(m.uid, uidMap), "mah" := m.mah]
  }

  /** `for k, v in pairs: row[k] = v.strip()` */
  function ApplyPairs(row: Row, ps: seq<(string, string)>): (r: Row)
    ensures row.Keys <= r.Keys
    decreases |ps|
  {
    if ps == [] then row else ApplyPairs(row[ps[0].0 := Strip(ps[0].1)], ps[1..])
  }

  /** The dictionary built for a matched key=value row */
  function KvRow(m: KvMatch, uidMap: map<string, string>): (r: Row)
    ensures "uid" in r && "pkg" in r && "mah" in r
  {
    ApplyPairs(BaseRow(m, uidMap), FindPairs(m.details))
  }

  /** No pair after position `i` has the key of pair `i`. */
  ghost predicate LastOfKey(ps: seq<(string, string)>, i: nat)
    requires i < |ps|
  {
    forall j :: i < j < |ps| ==> ps[j].0 != ps[i].0
  }

  ghost predicate KeyAbsent(ps: seq<(string, string)>, k: string) {
    forall j :: 0 <= j < |ps| ==> ps[j].0 != k
  }

  /** The keys the pairs name */
  function PairKeys(ps: seq<(string, string)>): (r: set<string>)
    ensures forall i :: 0 <= i < |ps| ==> ps[i].0 in r
    ensures forall k :: k in r ==> exists i :: 0 <= i < |ps| && ps[i].0 == k
  {
    set i | 0 <= i < |ps| :: ps[i].0
  }

  /** The row ends with its own keys and those of the pairs. */
  lemma {:induction false} ApplyPairsKeys(row: Row, ps: seq<(string, string)>)
    ensures ApplyPairs(row, ps).Keys == row.Keys + PairKeys(ps)
    decreases |ps|
  {
    if ps != [] {
      var row' := row[ps[0].0 := Strip(ps[0].1)];
      ApplyPairsKeys(row', ps[1..]);
      assert ApplyPairs(row, ps) == ApplyPairs(row', ps[1..]);
      assert row'.Keys == row.Keys + {ps[0].0};
      PairKeysCons(ps);
    }
  }

  lemma PairKeysCons(ps: seq<(string, string)>)
    requires ps != []
    ensures PairKeys(ps) == {ps[0].0} + PairKeys(ps[1..])
  {
    var tail := ps[1..];
    forall k | k in PairKeys(ps)
      ensures k in {ps[0].0} + PairKeys(tail)
    {
      var i :| 0 <= i < |ps| && ps[i].0 == k;
      if i > 0 {
        assert tail[i - 1].0 == k;
      }
    }
    forall k | k in PairKeys(tail)
      ensures k in PairKeys(ps)
    {
      var i :| 0 <= i < |tail| && tail[i].0 == k;
      assert ps[i + 1].0 == k;
    }
  }

  /** Each pair's key holds the stripped value of the last pair with that key. */
  lemma {:induction false} ApplyPairsLastWins(row: Row, ps: seq<(string, string)>)
    ensures forall i :: 0 <= i < |ps| && LastOfKey(ps, i) ==>
      ps[i].0 in ApplyPairs(row, ps) && ApplyPairs(row, ps)[ps[i].0] == Strip(ps[i].1)
    decreases |ps|
  {
    if ps != [] {
      var row' := row[ps[0].0 := Strip(ps[0].1)];
      var tail := ps[1..];
      ApplyPairsLastWins(row', tail);
      forall i | 0 <= i < |ps| && LastOfKey(ps, i)
        ensures ps[i].0 in ApplyPairs(row, ps) && ApplyPairs(row, ps)[ps[i].0] == Strip(ps[i].1)
      {
        if i == 0 {
          assert KeyAbsent(tail, ps[0].0) by {
            forall j | 0 <= j < |tail|
              ensures tail[j].0 != ps[0].0
            {
              assert tail[j] == ps[j + 1];
            }
          }
          ApplyPairsUntouched(row', tail);
        } else {
          assert tail[i - 1] == ps[i];
          assert LastOfKey(tail, i - 1) by {
            forall j | i - 1 < j < |tail|
              ensures tail[j].0 != tail[i - 1].0
            {
              assert tail[j] == ps[j + 1];
            }
          }
        }
      }
    }
  }

  /** A key no pair names keeps its value. */
  lemma {:induction false} ApplyPairsUntouched(row: Row, ps: seq<(string, string)>)
    ensures forall k :: k in row && KeyAbsent(ps, k) ==> k in ApplyPairs(row, ps) && ApplyPairs(row, ps)[k] == row[k]
    decreases |ps|
  {
    if ps != [] {
      var tail := ps[1..];
      ApplyPairsUntouched(row[ps[0].0 := Strip(ps[0].1)], tail);
      forall k | k in row && KeyAbsent(ps, k)
        ensures KeyAbsent(tail, k)
      {
        forall j | 0 <= j < |tail|
          ensures tail[j].0 != k
        {
          assert tail[j] == ps[j + 1];
        }
      }
    }
  }

  /** What a row built from `base` by the pairs `ps` holds: the three base
      columns and the pairs' keys; each pair's stripped value where it is the
      last pair of its key; a base column no pair names unchanged. */
  lemma RowContents(base: Row, ps: seq<(string, string)>)
    requires base.Keys == {"uid", "pkg", "mah"}
    ensures var r := ApplyPairs(base, ps);
      && r.Keys == {"uid", "pkg", "mah"} + PairKeys(ps)
      && (KeyAbsent(ps, "uid") ==> r["uid"] == base["uid"])
      && (KeyAbsent(ps, "mah") ==> r["mah"] == base["mah"])
      && (KeyAbsent(ps, "pkg") ==> r["pkg"] == base["pkg"])
      && (forall i :: 0 <= i < |ps| && LastOfKey(ps, i) ==> ps[i].0 in r && r[ps[i].0] == Strip(ps[i].1))
  {
    ApplyPairsKeys(base, ps);
    ApplyPairsLastWins(base, ps);
    ApplyPairsUntouched(base, ps);
  }

  /** What a key=value row stores: its uid and mah, the package name bound to
      the uid in pass 1 or `System:<uid>` when there is none, and every pair
      found in the details with its value stripped, the last pair of a key
      winning. A pair whose key is "uid", "pkg" or "mah" replaces that column,
      as the loop of line 76 runs after the row is built. */
  lemma KvRowContents(m: KvMatch, uidMap: map<string, string>)
    ensures var r := KvRow(m, uidMap); var ps := FindPairs(m.details);
      && r.Keys == {"uid", "pkg", "mah"} + PairKeys(ps)
      && (KeyAbsent(ps, "uid") ==> r["uid"] == m.uid)
      && (KeyAbsent(ps, "mah") ==> r["mah"] == m.mah)
      && (KeyAbsent(ps, "pkg") ==> r["pkg"] == NameOf(m.uid, uidMap))
      && (forall i :: 0 <= i < |ps| && LastOfKey(ps, i) ==> ps[i].0 in r && r[ps[i].0] == Strip(ps[i].1))
  {
    RowContents(BaseRow(m, uidMap), FindPairs(m.details));
  }

  /* ---------------- collector and foreground records (lines 79-89) ---------------- */

  datatype CollectorRecord = CollectorRecord(uid: string, mah: string, fg: string, bg: string, pkg: string)

  datatype ForegroundRecord = ForegroundRecord(uid: string, rawUah: string, dur: string, pkg: string)

  /** `{"uid": uid, "mah": pwr, "fg": fg.strip(), "bg": bg.strip(), "pkg": pkg.strip()}` */
  function CollectorRecordOf(c: CollectorMatch): (r: CollectorRecord)
    ensures r.uid == c.uid && r.mah == c.mah
    ensures PaddedBy(c.fg, r.fg) && PaddedBy(c.bg, r.bg) && PaddedBy(c.pkg, r.pkg)
    ensures r.fg == [] || (!IsSpace(r.fg[0]) && !IsSpace(r.fg[|r.fg| - 1]))
    ensures r.bg == [] || (!IsSpace(r.bg[0]) && !IsSpace(r.bg[|r.bg| - 1]))
    ensures r.pkg == [] || (!IsSpace(r.pkg[0]) && !IsSpace(r.pkg[|r.pkg| - 1]))
  {
    CollectorRecord(c.uid, c.mah, Strip(c.fg), Strip(c.bg), Strip(c.pkg))
  }

  /** `{"uid": uid, "raw_uah": total_uah, "dur": dur, "pkg": name}` */
  function ForegroundRecordOf(f: ForegroundMatch): (r: ForegroundRecord)
    ensures r.uid == f.uid && r.rawUah == f.rawUah && r.dur == f.dur && r.pkg == ForegroundName(f.pkgRaw)
    ensures '<' !in r.pkg && (r.pkg == [] || (!IsSpace(r.pkg[0]) && !IsSpace(r.pkg[|r.pkg| - 1])))
  {
    ForegroundRecord(f.uid, f.rawUah, f.dur, ForegroundName(f.pkgRaw))
  }

  /** The `strip()` calls on the foreground and background fields of a
      collector row change nothing: the lazy groups already stop before the
      whitespace around them. */
  lemma CollectorFieldsTrimmed(line: string)
    requires ParseCollectorRow(line).Some?
    ensures var c := ParseCollectorRow(line).value;
      CollectorRecordOf(c).fg == c.fg && CollectorRecordOf(c).bg == c.bg
  {
    StripStable(ParseCollectorRow(line).value.fg);
    StripStable(ParseCollectorRow(line).value.bg);
  }

  /* ---------------- one line ---------------- */

  /** What one line brings to pass 2: its mode marker, and the row each
      pattern finds in it (only the one of the current mode is used) */
  datatype LineRows = LineRows(target: Option<Mode>, kv: Option<(string, Row)>,
                               coll: Option<CollectorRecord>, fg: Option<ForegroundRecord>)

  function RowsOf(line: string, uidMap: map<string, string>): LineRows {
    var kv := ParseKvRow(line);
    var coll := ParseCollectorRow(line);
    var fg := ParseForegroundRow(line);
    LineRows(Target(line),
             if kv.Some? then Some((kv.value.uid, KvRow(kv.value, uidMap))) else None,
             if coll.Some? then Some(CollectorRecordOf(coll.value)) else None,
             if fg.Some? then Some(ForegroundRecordOf(fg.value)) else None)
  }

  function RowsOfAll(lines: seq<string>, uidMap: map<string, string>): (r: seq<LineRows>)
    ensures |r| == |lines| && forall i :: 0 <= i < |lines| ==> r[i] == RowsOf(lines[i], uidMap)
  {
    seq(|lines|, i requires 0 <= i < |lines| => RowsOf(lines[i], uidMap))
  }

  /* ---------------- the scan ---------------- */

  /** `mode` and `sections` */
  datatype Pass2State = Pass2State(mode: Mode, aggregated: KvSection, background: KvSection,
                                   diagnostic: seq<CollectorRecord>, sinceCharge: seq<CollectorRecord>,
                                   foreground: seq<ForegroundRecord>)

  const Start2 := Pass2State(NoSection, EmptySection, EmptySection, [], [], [])

  predicate IsKvMode(m: Mode) {
    m == Aggregated || m == Background
  }

  predicate IsCollectorMode(m: Mode) {
    m == CollectorDiagnostic || m == CollectorSinceCharge
  }

  /** The section a key=value mode writes to */
  function KvFor(s: Pass2State, m: Mode): KvSection
    requires IsKvMode(m)
  {
    if m == Aggregated then s.aggregated else s.background
  }

  /** The list a collector mode appends to */
  function CollectorFor(s: Pass2State, m: Mode): seq<CollectorRecord>
    requires IsCollectorMode(m)
  {
    if m == CollectorDiagnostic then s.diagnostic else s.sinceCharge
  }

  /** One iteration of the loop at lines 57-89 */
  function Step2(s: Pass2State, f: LineRows): (r: Pass2State)
    ensures r.mode == f.target.GetOr(s.mode)
    ensures s.diagnostic <= r.diagnostic && s.sinceCharge <= r.sinceCharge && s.foreground <= r.foreground
    ensures s.aggregated.rows.Keys <= r.aggregated.rows.Keys && s.background.rows.Keys <= r.background.rows.Keys
  {
    var mode := f.target.GetOr(s.mode);
    var s' := s.(mode := mode);
    if IsKvMode(mode) then
      if f.kv.None? then s'
      else if mode == Aggregated then s'.(aggregated := s.aggregated.Put(f.kv.value.0, f.kv.value.1))
      else s'.(background := s.background.Put(f.kv.value.0, f.kv.value.1))
    else if IsCollectorMode(mode) then
      if f.coll.None? then s'
      else if mode == CollectorDiagnostic then s'.(diagnostic := s.diagnostic + [f.coll.value])
      else s'.(sinceCharge := s.sinceCharge + [f.coll.value])
    else if mode == Foreground then
      if f.fg.None? then s' else s'.(foreground := s.foreground + [f.fg.value])
    else s'
  }

  /** Each collection changes only on a matched line of its own mode: a
      section by `Put`, a list by one appended record. */
  lemma Step2Effect(s: Pass2State, f: LineRows)
    ensures var m := f.target.GetOr(s.mode); var t := Step2(s, f);
      && t.mode == m
      && t.aggregated == (if m == Aggregated && f.kv.Some? then s.aggregated.Put(f.kv.value.0, f.kv.value.1) else s.aggregated)
      && t.background == (if m == Background && f.kv.Some? then s.background.Put(f.kv.value.0, f.kv.value.1) else s.background)
      && t.diagnostic == s.diagnostic + (if m == CollectorDiagnostic && f.coll.Some? then [f.coll.value] else [])
      && t.sinceCharge == s.sinceCharge + (if m == CollectorSinceCharge && f.coll.Some? then [f.coll.value] else [])
      && t.foreground == s.foreground + (if m == Foreground && f.fg.Some? then [f.fg.value] else [])
  {
    assert s.diagnostic + [] == s.diagnostic;
    assert s.sinceCharge + [] == s.sinceCharge;
    assert s.foreground + [] == s.foreground;
  }

  /** A line touches at most one collection, the one of the mode in force
      after its own transition, and only when that mode's pattern matched it;
      a list then grows by exactly one record. */
  lemma OneSectionPerLine(s: Pass2State, f: LineRows)
    ensures var m := f.target.GetOr(s.mode); var t := Step2(s, f);
      && (t.aggregated != s.aggregated ==> m == Aggregated && f.kv.Some?)
      && (t.background != s.background ==> m == Background && f.kv.Some?)
      && (t.diagnostic != s.diagnostic <==> m == CollectorDiagnostic && f.coll.Some?)
      && (t.sinceCharge != s.sinceCharge <==> m == CollectorSinceCharge && f.coll.Some?)
      && (t.foreground != s.foreground <==> m == Foreground && f.fg.Some?)
      && |t.diagnostic| + |t.sinceCharge| + |t.foreground| <= |s.diagnostic| + |s.sinceCharge| + |s.foreground| + 1
  {
    Step2Effect(s, f);
  }

  function Extract(fs: seq<LineRows>): Pass2State
    decreases |fs|
  {
    if fs == [] then Start2
    else Step2(Extract(fs[..|fs| - 1]), fs[|fs| - 1])
  }

  /** The state after pass 2 over `lines`, given pass 1's uid map */
  function Pass2(lines: seq<string>, uidMap: map<string, string>): Pass2State {
    Extract(RowsOfAll(lines, uidMap))
  }

  lemma ExtractSnoc(fs: seq<LineRows>, i: nat)
    requires i < |fs|
    ensures Extract(fs[..i + 1]) == Step2(Extract(fs[..i]), fs[i])
  {
    assert fs[..i + 1][..i] == fs[..i];
  }

  /** The body of the loop (lines 58-89) on one line */
  method ExtractLine(line: string, uidMap: map<string, string>, s: Pass2State) returns (s': Pass2State)
    ensures s' == Step2(s, RowsOf(line, uidMap))
  {
    ghost var f := RowsOf(line, uidMap);
    var mode := NextMode(s.mode, line);
    NextModeByTarget(s.mode, line);
    s' := s.(mode := mode);
    if mode == Aggregated || mode == Background {
      var match_ := ParseKvRow(line);
      if match_.Some? {
        var uid := match_.value.uid;
        var row := KvRow(match_.value, uidMap);
        if mode == Aggregated {
          s' := s'.(aggregated := s.aggregated.Put(uid, row));
        } else {
          s' := s'.(background := s.background.Put(uid, row));
        }
      }
    } else if mode == CollectorDiagnostic || mode == CollectorSinceCharge {
      var cMatch := ParseCollectorRow(line);
      if cMatch.Some? {
        var record := CollectorRecordOf(cMatch.value);
        if mode == CollectorDiagnostic {
          s' := s'.(diagnostic := s.diagnostic + [record]);
        } else {
          s' := s'.(sinceCharge := s.sinceCharge + [record]);
        }
      }
    } else if mode == Foreground {
      var fMatch := ParseForegroundRow(line);
      if fMatch.Some? {
        s' := s'.(foreground := s.foreground + [ForegroundRecordOf(fMatch.value)]);
      }
    }
  }

  /** The loop of lines 55-89, over every line in turn */
  method ExtractSections(lines: seq<string>, uidMap: map<string, string>) returns (s: Pass2State)
    ensures s == Pass2(lines, uidMap)
  {
    s := Start2;
    ghost var fs := RowsOfAll(lines, uidMap);
    assert fs[..0] == [];
    var i := 0;
    while i < |lines|
      invariant 0 <= i <= |lines| && |fs| == |lines|
      invariant Extract(fs[..i]) == s
    {
      assert fs[i] == RowsOf(lines[i], uidMap);
      s := ExtractLine(lines[i], uidMap, s);
      ExtractSnoc(fs, i);
      i := i + 1;
    }
    assert fs[..|lines|] == fs;
  }

  /* ---------------- what the scan computes, stated without the fold ---------------- */

  predicate HasTarget(f: LineRows) {
    f.target.Some?
  }

  /** The mode of the line at index `k`: that of the last marker line up to
      and including it, or none before the first marker */
  ghost function ModeAt(fs: seq<LineRows>, k: nat): Mode
    requires k < |fs|
  {
    var j := LastWhere(fs[..k + 1], HasTarget);
    if j.Some? then fs[j.value].target.value else NoSection
  }

  /** The mode after the lines `fs` is the mode of the last of them. */
  lemma {:induction false} ModeAfter(fs: seq<LineRows>)
    requires fs != []
    ensures Extract(fs).mode == ModeAt(fs, |fs| - 1)
    decreases |fs|
  {
    var n := |fs| - 1;
    assert fs[..n + 1] == fs;
    if fs[n].target.None? && n > 0 {
      ModeAfter(fs[..n]);
      var j := LastWhere(fs, HasTarget);
      assert j == LastWhere(fs[..n], HasTarget);
      assert fs[..n][..n] == fs[..n];
      if j.Some? {
        assert fs[..n][j.value] == fs[j.value];
      }
    }
  }

  /** The mode of an earlier line does not depend on the lines after it. */
  lemma ModeAtPrefix(fs: seq<LineRows>, k: nat, n: nat)
    requires k < n <= |fs|
    ensures ModeAt(fs[..n], k) == ModeAt(fs, k)
  {
    assert fs[..n][..k + 1] == fs[..k + 1];
    var j := LastWhere(fs[..k + 1], HasTarget);
    if j.Some? {
      assert fs[..n][j.value] == fs[j.value];
    }
  }

  /** Line `k` brings a key=value row in mode `m`. */
  ghost predicate KvLineIn(fs: seq<LineRows>, k: nat, m: Mode)
    requires k < |fs|
  {
    ModeAt(fs, k) == m && fs[k].kv.Some?
  }

  /** No key=value line after `k` in the same mode has line `k`'s uid. */
  ghost predicate LastKvLine(fs: seq<LineRows>, k: nat, m: Mode)
    requires k < |fs| && KvLineIn(fs, k, m)
  {
    forall k' :: k < k' < |fs| && KvLineIn(fs, k', m) ==> fs[k'].kv.value.0 != fs[k].kv.value.0
  }

  /** A section holds the uids of the rows met in its mode, each with the row
      of the last line carrying that uid. */
  ghost predicate SectionMatchesRows(fs: seq<LineRows>, m: Mode, sec: KvSection) {
    && sec.Valid()
    && (forall u :: u in sec.rows <==> exists k :: 0 <= k < |fs| && KvLineIn(fs, k, m) && fs[k].kv.value.0 == u)
    && (forall k :: 0 <= k < |fs| && KvLineIn(fs, k, m) && LastKvLine(fs, k, m) ==>
          fs[k].kv.value.0 in sec.rows && sec.rows[fs[k].kv.value.0] == fs[k].kv.value.1)
  }

  /** How the last line changes the section of mode `m` */
  lemma LastLineKv(fs: seq<LineRows>, m: Mode)
    requires fs != [] && IsKvMode(m)
    ensures var n := |fs| - 1; var before := KvFor(Extract(fs[..n]), m);
      && (KvLineIn(fs, n, m) ==> KvFor(Extract(fs), m) == before.Put(fs[n].kv.value.0, fs[n].kv.value.1))
      && (!KvLineIn(fs, n, m) ==> KvFor(Extract(fs), m) == before)
  {
    ModeAfter(fs);
    Step2Effect(Extract(fs[..|fs| - 1]), fs[|fs| - 1]);
  }

  /** Key=value lines before the last one, seen from all the lines */
  ghost predicate SameEarlierKv(fs: seq<LineRows>, m: Mode)
    requires fs != []
  {
    var n := |fs| - 1;
    forall k :: 0 <= k < n ==> KvLineIn(fs, k, m) == KvLineIn(fs[..n], k, m) && fs[k] == fs[..n][k]
  }

  lemma EarlierKv(fs: seq<LineRows>, m: Mode)
    requires fs != []
    ensures SameEarlierKv(fs, m)
  {
    var n := |fs| - 1;
    forall k | 0 <= k < n
      ensures KvLineIn(fs, k, m) == KvLineIn(fs[..n], k, m) && fs[k] == fs[..n][k]
    {
      ModeAtPrefix(fs, k, n);
    }
  }

  /** Last write wins: each key=value section maps every uid met in its mode
      to the row of the last line with that uid, and holds nothing else. */
  lemma {:induction false} LastWriteWins(fs: seq<LineRows>, m: Mode)
    requires IsKvMode(m)
    ensures SectionMatchesRows(fs, m, KvFor(Extract(fs), m))
    decreases |fs|
  {
    if fs != [] {
      var n := |fs| - 1;
      LastWriteWins(fs[..n], m);
      LastLineKv(fs, m);
      EarlierKv(fs, m);
      KvKeysStep(fs, m, KvFor(Extract(fs[..n]), m), KvFor(Extract(fs), m));
      KvRowsStep(fs, m, KvFor(Extract(fs[..n]), m), KvFor(Extract(fs), m));
    }
  }

  /** The uids of the key=value rows met in mode `m` */
  ghost function UidsIn(fs: seq<LineRows>, m: Mode): set<string> {
    set k | 0 <= k < |fs| && KvLineIn(fs, k, m) :: fs[k].kv.value.0
  }

  /** A key=value section holds one row per distinct uid met in its mode. */
  lemma DistinctUids(fs: seq<LineRows>, m: Mode)
    requires IsKvMode(m)
    ensures |KvFor(Extract(fs), m).rows| == |UidsIn(fs, m)|
    ensures |KvFor(Extract(fs), m).order| == |UidsIn(fs, m)|
  {
    var sec := KvFor(Extract(fs), m);
    LastWriteWins(fs, m);
    assert sec.rows.Keys == UidsIn(fs, m);
    SectionSize(sec);
  }

  lemma KvKeysStep(fs: seq<LineRows>, m: Mode, s0: KvSection, s: KvSection)
    requires fs != [] && SameEarlierKv(fs, m)
    requires SectionMatchesRows(fs[..|fs| - 1], m, s0)
    requires var n := |fs| - 1;
      && (KvLineIn(fs, n, m) ==> s == s0.Put(fs[n].kv.value.0, fs[n].kv.value.1))
      && (!KvLineIn(fs, n, m) ==> s == s0)
    ensures s.Valid()
    ensures forall u :: u in s.rows <==> exists k :: 0 <= k < |fs| && KvLineIn(fs, k, m) && fs[k].kv.value.0 == u
  {
    var n := |fs| - 1;
    var prev := fs[..n];
    forall u
      ensures u in s.rows <==> exists k :: 0 <= k < |fs| && KvLineIn(fs, k, m) && fs[k].kv.value.0 == u
    {
      if u in s.rows {
        if !(KvLineIn(fs, n, m) && fs[n].kv.value.0 == u) {
          var k :| 0 <= k < n && KvLineIn(prev, k, m) && prev[k].kv.value.0 == u;
          assert KvLineIn(fs, k, m);
        }
      }
      if exists k :: 0 <= k < |fs| && KvLineIn(fs, k, m) && fs[k].kv.value.0 == u {
        var k :| 0 <= k < |fs| && KvLineIn(fs, k, m) && fs[k].kv.value.0 == u;
        if k < n {
          assert KvLineIn(prev, k, m) && prev[k].kv.value.0 == u;
        }
      }
    }
  }

  lemma KvRowsStep(fs: seq<LineRows>, m: Mode, s0: KvSection, s: KvSection)
    requires fs != [] && SameEarlierKv(fs, m)
    requires SectionMatchesRows(fs[..|fs| - 1], m, s0)
    requires var n := |fs| - 1;
      && (KvLineIn(fs, n, m) ==> s == s0.Put(fs[n].kv.value.0, fs[n].kv.value.1))
      && (!KvLineIn(fs, n, m) ==> s == s0)
    ensures forall k :: 0 <= k < |fs| && KvLineIn(fs, k, m) && LastKvLine(fs, k, m) ==>
          fs[k].kv.value.0 in s.rows && s.rows[fs[k].kv.value.0] == fs[k].kv.value.1
  {
    var n := |fs| - 1;
    forall k | 0 <= k < |fs| && KvLineIn(fs, k, m) && LastKvLine(fs, k, m)
      ensures fs[k].kv.value.0 in s.rows && s.rows[fs[k].kv.value.0] == fs[k].kv.value.1
    {
      if k < n {
        LastKvPrefix(fs, k, m);
      }
    }
  }

  lemma LastKvPrefix(fs: seq<LineRows>, k: nat, m: Mode)
    requires fs != [] && SameEarlierKv(fs, m)
    requires k < |fs| - 1 && KvLineIn(fs, k, m) && LastKvLine(fs, k, m)
    ensures KvLineIn(fs[..|fs| - 1], k, m) && LastKvLine(fs[..|fs| - 1], k, m)
  {
    var prev := fs[..|fs| - 1];
    forall k' | k < k' < |prev| && KvLineIn(prev, k', m)
      ensures prev[k'].kv.value.0 != prev[k].kv.value.0
    {
      assert KvLineIn(fs, k', m);
    }
  }

  /** Some key=value line before line `k` in mode `m` carries `u`. */
  ghost predicate SeenBefore(fs: seq<LineRows>, m: Mode, u: string, k: nat) {
    exists k' :: 0 <= k' < k && k' < |fs| && KvLineIn(fs, k', m) && fs[k'].kv.value.0 == u
  }

  /** Each uid of `order` is met in the log before every later one: every
      line carrying `order[j]` comes after some line carrying `order[i]`,
      for `i < j`. With `order` holding each uid once, this fixes it as the
      order of first appearance. */
  ghost predicate InFirstSeenOrder(fs: seq<LineRows>, m: Mode, order: seq<string>) {
    forall i, j, k :: 0 <= i < j < |order| && 0 <= k < |fs| && KvLineIn(fs, k, m) && fs[k].kv.value.0 == order[j] ==>
      SeenBefore(fs, m, order[i], k)
  }

  /** Dict insertion order: a key=value section lists its uids in the order
      their first rows appear in the log, whatever rows came later. */
  lemma {:induction false} SectionOrder(fs: seq<LineRows>, m: Mode)
    requires IsKvMode(m)
    ensures InFirstSeenOrder(fs, m, KvFor(Extract(fs), m).order)
    decreases |fs|
  {
    if fs != [] {
      var n := |fs| - 1;
      SectionOrder(fs[..n], m);
      LastWriteWins(fs[..n], m);
      LastLineKv(fs, m);
      EarlierKv(fs, m);
      OrderStep(fs, m, KvFor(Extract(fs[..n]), m), KvFor(Extract(fs), m));
    }
  }

  /** A line seen before `k` among the earlier lines is seen before `k` in all. */
  lemma SeenBeforeLift(fs: seq<LineRows>, m: Mode, u: string, k: nat)
    requires fs != [] && SameEarlierKv(fs, m) && k <= |fs| - 1
    requires SeenBefore(fs[..|fs| - 1], m, u, k)
    ensures SeenBefore(fs, m, u, k)
  {
    var prev := fs[..|fs| - 1];
    var k' :| 0 <= k' < k && k' < |prev| && KvLineIn(prev, k', m) && prev[k'].kv.value.0 == u;
    assert KvLineIn(fs, k', m) && fs[k'] == prev[k'];
  }

  lemma OrderStep(fs: seq<LineRows>, m: Mode, s0: KvSection, s: KvSection)
    requires fs != [] && SameEarlierKv(fs, m)
    requires SectionMatchesRows(fs[..|fs| - 1], m, s0) && InFirstSeenOrder(fs[..|fs| - 1], m, s0.order)
    requires var n := |fs| - 1;
      && (KvLineIn(fs, n, m) ==> s == s0.Put(fs[n].kv.value.0, fs[n].kv.value.1))
      && (!KvLineIn(fs, n, m) ==> s == s0)
    ensures InFirstSeenOrder(fs, m, s.order)
  {
    var n := |fs| - 1;
    assert OrderGrowth(s0, s.order) by {
      if KvLineIn(fs, n, m) && fs[n].kv.value.0 !in s0.rows {
        assert s.order == s0.order + [fs[n].kv.value.0];
        assert s.order[..|s0.order|] == s0.order;
      }
    }
    forall i, j, k | 0 <= i < j < |s.order| && 0 <= k < |fs| && KvLineIn(fs, k, m) && fs[k].kv.value.0 == s.order[j]
      ensures SeenBefore(fs, m, s.order[i], k)
    {
      if k < n {
        OrderAtEarlierLine(fs, m, s0, s.order, i, j, k);
      } else {
        OrderAtLastLine(fs, m, s0, s.order, i, j);
      }
    }
  }

  /** The order grows only by a uid the section did not hold. */
  ghost predicate OrderGrowth(s0: KvSection, order: seq<string>) {
    order == s0.order || (|order| == |s0.order| + 1 && order[..|s0.order|] == s0.order && order[|s0.order|] !in s0.rows)
  }

  lemma OrderAtEarlierLine(fs: seq<LineRows>, m: Mode, s0: KvSection, order: seq<string>, i: nat, j: nat, k: nat)
    requires fs != [] && SameEarlierKv(fs, m)
    requires SectionMatchesRows(fs[..|fs| - 1], m, s0) && InFirstSeenOrder(fs[..|fs| - 1], m, s0.order)
    requires OrderGrowth(s0, order)
    requires i < j < |order| && k < |fs| - 1 && KvLineIn(fs, k, m) && fs[k].kv.value.0 == order[j]
    ensures SeenBefore(fs, m, order[i], k)
  {
    var prev := fs[..|fs| - 1];
    assert KvLineIn(prev, k, m) && prev[k] == fs[k];
    assert order[j] in s0.rows;
    GrowthKeeps(s0, order, j);
    assert order[i] == s0.order[i] && order[j] == s0.order[j];
    SeenBeforeLift(fs, m, order[i], k);
  }

  /** A uid already in the old rows sits at the same place in the grown order. */
  lemma GrowthKeeps(s0: KvSection, order: seq<string>, j: nat)
    requires OrderGrowth(s0, order) && j < |order| && order[j] in s0.rows
    ensures j < |s0.order| && order[..|s0.order|] == s0.order
  {
    if order != s0.order {
      assert j != |s0.order|;
    }
  }

  lemma OrderAtLastLine(fs: seq<LineRows>, m: Mode, s0: KvSection, order: seq<string>, i: nat, j: nat)
    requires fs != [] && SameEarlierKv(fs, m)
    requires SectionMatchesRows(fs[..|fs| - 1], m, s0) && InFirstSeenOrder(fs[..|fs| - 1], m, s0.order)
    requires OrderGrowth(s0, order)
    requires var n := |fs| - 1; i < j < |order| && KvLineIn(fs, n, m) && fs[n].kv.value.0 == order[j]
    ensures SeenBefore(fs, m, order[i], |fs| - 1)
  {
    var n := |fs| - 1;
    var prev := fs[..n];
    assert order[i] == s0.order[i] && order[i] in s0.rows;
    if j == |s0.order| {
      var k0 :| 0 <= k0 < n && KvLineIn(prev, k0, m) && prev[k0].kv.value.0 == order[i];
      assert KvLineIn(fs, k0, m) && fs[k0] == prev[k0];
    } else {
      var u := order[j];
      assert u == s0.order[j] && u in s0.rows;
      var k0 :| 0 <= k0 < n && KvLineIn(prev, k0, m) && prev[k0].kv.value.0 == u;
      assert SeenBefore(prev, m, s0.order[i], k0);
      SeenBeforeLift(fs, m, order[i], k0);
    }
  }

  /** The records a list of mode `m` collects from the lines `fs`, in line
      order: those of the lines in mode `m` whose row matched */
  ghost function CollectedIn(fs: seq<LineRows>, m: Mode): seq<CollectorRecord>
    decreases |fs|
  {
    if fs == [] then []
    else
      var n := |fs| - 1;
      CollectedIn(fs[..n], m) + (if ModeAt(fs, n) == m && fs[n].coll.Some? then [fs[n].coll.value] else [])
  }

  /** The collector lists hold the matched rows of their mode in input order,
      duplicates included. */
  lemma {:induction false} CollectorRowsInOrder(fs: seq<LineRows>, m: Mode)
    requires IsCollectorMode(m)
    ensures CollectorFor(Extract(fs), m) == CollectedIn(fs, m)
    decreases |fs|
  {
    if fs != [] {
      CollectorRowsInOrder(fs[..|fs| - 1], m);
      ModeAfter(fs);
      Step2Effect(Extract(fs[..|fs| - 1]), fs[|fs| - 1]);
    }
  }

  /** The foreground records, likewise */
  ghost function ForegroundIn(fs: seq<LineRows>): seq<ForegroundRecord>
    decreases |fs|
  {
    if fs == [] then []
    else
      var n := |fs| - 1;
      ForegroundIn(fs[..n]) + (if ModeAt(fs, n) == Foreground && fs[n].fg.Some? then [fs[n].fg.value] else [])
  }

  lemma {:induction false} ForegroundRowsInOrder(fs: seq<LineRows>)
    ensures Extract(fs).foreground == ForegroundIn(fs)
    decreases |fs|
  {
    if fs != [] {
      ForegroundRowsInOrder(fs[..|fs| - 1]);
      ModeAfter(fs);
      Step2Effect(Extract(fs[..|fs| - 1]), fs[|fs| - 1]);
    }
  }

  /** The lists only grow: after more lines, each list extends the one before. */
  lemma {:induction false} ListsOnlyGrow(fs: seq<LineRows>, i: nat)
    requires i <= |fs|
    ensures var a := Extract(fs[..i]); var b := Extract(fs);
      && a.diagnostic <= b.diagnostic && a.sinceCharge <= b.sinceCharge && a.foreground <= b.foreground
    decreases |fs| - i
  {
    if i < |fs| {
      ListsOnlyGrow(fs, i + 1);
      ExtractSnoc(fs, i);
      Step2Effect(Extract(fs[..i]), fs[i]);
    } else {
      assert fs[..i] == fs;
    }
  }
}
