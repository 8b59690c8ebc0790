/** The whole of `analyze_samsung_comprehensive_report` (batteryAnalysis.py,
    lines 40-113) on the lines of a log: pass 1 resolves package names and the
    header values, pass 2 fills the five sections, and the report lists the
    five tables in their fixed order. A table that raises ValueError ends the
    report, as the uncaught exception ends the program. */
module Analysis {
  import opened Wrappers
  import opened Classifier
  import opened Resolver
  import opened Extractor
  import opened Render

  /** One table of the report: the rows it shows, in printed order, with the
      header value a collector table carries in its title */
  datatype Table =
    | KvListing(kv: KvTable)
    | CollectorListing(title: string, rows: seq<CollectorRecord>)
    | ForegroundListing(fg: Option<seq<Table5Row>>)

  /** The header values and the tables printed, in order */
  datatype Report = Report(meta: Meta, tables: seq<Table>)

  /** The tables printed before the first uncaught ValueError: tables 1
      and 2 end the report when their sort raises; otherwise all five are
      printed. */
  function Printed(t1: KvTable, t2: KvTable, rest: seq<Table>): (r: seq<Table>)
    requires |rest| == 3
    ensures |r| == 1 || |r| == 2 || |r| == 5
    ensures r[0] == KvListing(t1) && (|r| >= 2 ==> r[1] == KvListing(t2))
    ensures |r| == 5 ==> r[2..] == rest
    ensures |r| < 5 ==> r[|r| - 1].kv.MalformedMah?
    ensures |r| >= 2 ==> !t1.MalformedMah?
    ensures |r| == 5 ==> !t2.MalformedMah?
  {
    if t1.MalformedMah? then [KvListing(t1)]
    else if t2.MalformedMah? then [KvListing(t1), KvListing(t2)]
    else [KvListing(t1), KvListing(t2)] + rest
  }

  /** Lines 109-113: tables 1 and 2 from the key=value sections, tables 3 and
      4 from the collector lists titled with the window and the since-charge
      time, table 5 from the foreground records */
  function Tables(meta: Meta, s: Pass2State): (r: seq<Table>)
    requires s.aggregated.Valid() && s.background.Valid()
    ensures |r| == 1 || |r| == 2 || |r| == 5
    ensures r[0] == KvListing(RenderKv(s.aggregated)) && (|r| >= 2 ==> r[1] == KvListing(RenderKv(s.background)))
    ensures |r| < 5 ==> r[|r| - 1].kv.MalformedMah?
    ensures |r| >= 2 ==> !r[0].kv.MalformedMah?
    ensures |r| == 5 ==> !r[1].kv.MalformedMah?
  {
    Printed(RenderKv(s.aggregated), RenderKv(s.background),
            [CollectorListing(meta.window, s.diagnostic),
             CollectorListing(meta.sinceCharge, s.sinceCharge),
             ForegroundListing(Table5(s.foreground))])
  }

  /** Pass 2 keeps both key=value sections well formed. */
  lemma {:induction false} SectionsValid(fs: seq<LineRows>)
    ensures Extract(fs).aggregated.Valid() && Extract(fs).background.Valid()
    decreases |fs|
  {
    if fs != [] {
      SectionsValid(fs[..|fs| - 1]);
      Step2Effect(Extract(fs[..|fs| - 1]), fs[|fs| - 1]);
    }
  }

  function Analyze(lines: seq<string>): (r: Report)
    ensures r.meta == Resolve(lines).meta
    ensures 1 <= |r.tables| <= 5
  {
    var r := Resolve(lines);
    var s := Pass2(lines, r.uidMap);
    SectionsValid(RowsOfAll(lines, r.uidMap));
    Report(r.meta, Tables(r.meta, s))
  }

  /** The two passes over the lines, then the tables */
  method AnalyzeReport(lines: seq<string>) returns (report: Report)
    ensures report == Analyze(lines)
  {
    var uidMap, meta := ResolveIdentifiers(lines);
    var s := ExtractSections(lines, uidMap);
    SectionsValid(RowsOfAll(lines, uidMap));
    report := Report(meta, Tables(meta, s));
  }

  /** A section whose rows all have a numeric mah */
  ghost predicate MahsRead(sec: KvSection) {
    forall u :: u in sec.rows ==> !MahMalformed(sec.rows[u])
  }

  /** The tables stop at the first key=value section with a malformed mah;
      past both, all five are printed, and table 5 prints its rows whenever
      the foreground numbers read as integers. */
  lemma TablesOutcome(meta: Meta, s: Pass2State)
    requires s.aggregated.Valid() && s.background.Valid()
    ensures |Tables(meta, s)| == 5 <==> MahsRead(s.aggregated) && MahsRead(s.background)
    ensures |Tables(meta, s)| == 1 <==> !MahsRead(s.aggregated)
    ensures |Tables(meta, s)| == 5 && NumbersRead(s.foreground) ==> Tables(meta, s)[4].fg.Some?
  {
    RenderKvOutcome(s.aggregated);
    RenderKvOutcome(s.background);
    if NumbersRead(s.foreground) {
      Table5Order(s.foreground);
    }
  }

  /** The report holds all five tables exactly when both key=value sections
      have numeric mahs, and then table 5 never raises; otherwise it stops at
      the first section with a malformed mah. */
  lemma ReportComplete(lines: seq<string>)
    ensures var s := Pass2(lines, Resolve(lines).uidMap);
      && s.aggregated.Valid() && s.background.Valid()
      && (|Analyze(lines).tables| == 5 <==> MahsRead(s.aggregated) && MahsRead(s.background))
      && (|Analyze(lines).tables| == 1 <==> !MahsRead(s.aggregated))
      && (|Analyze(lines).tables| == 5 ==> Analyze(lines).tables[4].fg.Some?)
  {
    var r := Resolve(lines);
    var s := Pass2(lines, r.uidMap);
    SectionsValid(RowsOfAll(lines, r.uidMap));
    assert Analyze(lines).tables == Tables(r.meta, s);
    TablesOutcome(r.meta, s);
    ForegroundRecordsWellFormed(lines, r.uidMap);
  }

  /** Tables 3, 4 and 5 show the rows their sections matched, in log order
      for 3 and 4; the titles of 3 and 4 carry the window and the since-charge
      time read in pass 1. */
  lemma ReportTables(lines: seq<string>)
    requires |Analyze(lines).tables| == 5
    ensures var r := Resolve(lines); var fs := RowsOfAll(lines, r.uidMap);
      && Analyze(lines).tables[2] == CollectorListing(r.meta.window, CollectedIn(fs, CollectorDiagnostic))
      && Analyze(lines).tables[3] == CollectorListing(r.meta.sinceCharge, CollectedIn(fs, CollectorSinceCharge))
      && Analyze(lines).tables[4] == ForegroundListing(Table5(ForegroundIn(fs)))
  {
    var r := Resolve(lines);
    var fs := RowsOfAll(lines, r.uidMap);
    SectionsValid(fs);
    assert Analyze(lines).tables == Tables(r.meta, Extract(fs));
    CollectorRowsInOrder(fs, CollectorDiagnostic);
    CollectorRowsInOrder(fs, CollectorSinceCharge);
    ForegroundRowsInOrder(fs);
  }

  /** A log with no lines prints the default header values, skips tables 1
      and 2 and prints the three other tables empty. */
  lemma EmptyLog()
    ensures Analyze([]) == Report(InitialMeta, [KvListing(Skipped), KvListing(Skipped),
                                  CollectorListing("Unknown Window", []),
                                  CollectorListing("Unknown Start", []),
                                  ForegroundListing(Some([]))])
  {
    assert RowsOfAll([], map[]) == [];
    assert FactsOf([]) == [];
  }
}
