/** What the render helpers (batteryAnalysis.py, lines 119-151) select and in
    which order, without the printing: `render_kv` lists a section's rows by
    descending `float(mah)`, `render_coll` lists its rows as they came, and
    `render_table_5` lists the foreground records by descending
    `int(raw_uah)` with the charge, intensity and hourly projection derived
    from them. Python's `sorted(..., reverse=True)` is the stable sort of
    module Sorting. */
module Render {
  import opened Wrappers
  import opened Text
  import opened Sorting
  import opened Extractor

  /* ---------------- render_kv (lines 119-128) ---------------- */

  /** `float(x.get("mah", 0))`; None where `float` raises ValueError */
  function MahKey(row: Row): Option<real> {
    if "mah" in row then ParseDecimal(row["mah"]) else Some(0.0)
  }

  /** The sort key of a row whose `mah` reads as a number */
  function RowMah(row: Row): real {
    MahKey(row).GetOr(0.0)
  }

  /** The index of the first row whose key raises, in the order `sorted`
      computes the keys */
  function FirstMalformed(rows: seq<Row>): (r: Option<nat>)
    ensures r.Some? ==> r.value < |rows| && MahKey(rows[r.value]).None?
    ensures r.Some? ==> forall i :: 0 <= i < r.value ==> MahKey(rows[i]).Some?
    ensures r.None? ==> forall i :: 0 <= i < |rows| ==> MahKey(rows[i]).Some?
    decreases |rows|
  {
    if rows == [] then None
    else if MahKey(rows[0]).None? then Some(0)
    else
      var r := FirstMalformed(rows[1..]);
      assert forall i :: 1 <= i < |rows| ==> rows[1..][i - 1] == rows[i];
      if r.Some? then Some(r.value + 1) else None
  }

  /** What `render_kv` does with a section: nothing for an empty one, a
      ValueError at the first row whose mah is not a number, or the rows to
      print in their printed order */
  datatype KvTable = Skipped | MalformedMah(mah: string) | Listed(rows: seq<Row>)

  function RenderKv(sec: KvSection): (r: KvTable)
    requires sec.Valid()
    ensures r.Skipped? <==> sec.order == []
    ensures r.Listed? ==> |r.rows| == |sec.order|
    ensures r.MalformedMah? ==> exists u :: u in sec.rows && "mah" in sec.rows[u] && sec.rows[u]["mah"] == r.mah
  {
    SectionSize(sec);
    if |sec.rows| == 0 then Skipped
    else
      var values := sec.Values();
      var bad := FirstMalformed(values);
      if bad.Some? then
        assert sec.order[bad.value] in sec.rows && sec.rows[sec.order[bad.value]] == values[bad.value];
        MalformedMah(values[bad.value]["mah"])
      else Listed(SortDesc(values, RowMah))
  }

  /** A property every element of `s` has survives a permutation. */
  lemma PermutedAll<T>(s: seq<T>, r: seq<T>, p: T -> bool)
    requires multiset(r) == multiset(s)
    requires forall i :: 0 <= i < |s| ==> p(s[i])
    ensures forall i :: 0 <= i < |r| ==> p(r[i])
  {
    forall i | 0 <= i < |r|
      ensures p(r[i])
    {
      assert r[i] in multiset(s);
    }
  }

  ghost predicate MahMalformed(row: Row) {
    "mah" in row && !IsPlainDecimal(row["mah"])
  }

  lemma MahKeyAccepts(row: Row)
    ensures MahKey(row).None? <==> MahMalformed(row)
  {
    if "mah" in row {
      ParseDecimalAccepts(row["mah"]);
    }
  }

  /** An empty section prints nothing, and a section raises ValueError exactly
      when one of its rows has a `mah` that is not a plain decimal number. */
  lemma RenderKvOutcome(sec: KvSection)
    requires sec.Valid()
    ensures RenderKv(sec).Skipped? <==> |sec.rows| == 0
    ensures RenderKv(sec).MalformedMah? <==> exists u :: u in sec.rows && MahMalformed(sec.rows[u])
  {
    var values := sec.Values();
    SectionSize(sec);
    if exists u :: u in sec.rows && MahMalformed(sec.rows[u]) {
      var u :| u in sec.rows && MahMalformed(sec.rows[u]);
      var i :| 0 <= i < |sec.order| && sec.order[i] == u;
      assert values[i] == sec.rows[u];
      MahKeyAccepts(values[i]);
    }
    if RenderKv(sec).MalformedMah? {
      var i := FirstMalformed(values).value;
      assert sec.order[i] in sec.rows;
      MahKeyAccepts(values[i]);
    }
  }

  /** A listed section shows each of its rows once, by descending mah, rows of
      equal mah in the order the dictionary holds them. */
  lemma RenderKvListed(sec: KvSection)
    requires sec.Valid() && RenderKv(sec).Listed?
    ensures var rows := RenderKv(sec).rows;
      && multiset(rows) == multiset(sec.Values())
      && (forall i :: 0 <= i < |rows| ==> MahKey(rows[i]).Some?)
      && (forall i, j :: 0 <= i < j < |rows| ==> MahKey(rows[i]).value >= MahKey(rows[j]).value)
      && (forall v :: WithKey(rows, RowMah, v) == WithKey(sec.Values(), RowMah, v))
  {
    var values := sec.Values();
    var rows := SortDesc(values, RowMah);
    PermutedAll(values, rows, row => MahKey(row).Some?);
    forall v {
      SortStable(values, RowMah, v);
    }
  }

  /* ---------------- render_table_5 (lines 140-151) ---------------- */

  /** One printed line of table 5: the raw charge in µAh, the charge in mAh,
      the seconds, the intensity in mAh per second and its one-hour
      projection. Python computes the last three in floating point; they are
      exact here. */
  datatype Table5Row = Table5Row(uid: string, pkg: string, raw: nat, mah: real, dur: nat,
                                 intensity: real, projected: real)

  /** `int(x['raw_uah'])`; None where `int` raises ValueError */
  function RawKey(r: ForegroundRecord): Option<nat> {
    ParseNat(r.rawUah)
  }

  function RawOrder(r: ForegroundRecord): real {
    RawKey(r).GetOr(0) as real
  }

  /** `mah / dur if dur > 0 else 0` with `mah = raw / 1000` */
  function Intensity(raw: nat, dur: nat): (i: real)
    ensures dur == 0 ==> i == 0.0
    ensures dur > 0 ==> i * dur as real == raw as real / 1000.0
    ensures i >= 0.0
  {
    var mah := raw as real / 1000.0;
    if dur > 0 then mah / dur as real else 0.0
  }

  /** Lines 146-151 for one record whose two numbers read as integers */
  function Table5RowOf(r: ForegroundRecord): (t: Table5Row)
    requires RawKey(r).Some? && ParseNat(r.dur).Some?
    ensures t.uid == r.uid && t.pkg == r.pkg && t.raw == RawKey(r).value && t.dur == ParseNat(r.dur).value
    ensures t.intensity == Intensity(t.raw, t.dur) && t.projected == t.intensity * 3600.0
    ensures t.mah * 1000.0 == t.raw as real
  {
    var raw := RawKey(r).value;
    var dur := ParseNat(r.dur).value;
    var intensity := Intensity(raw, dur);
    Table5Row(r.uid, r.pkg, raw, raw as real / 1000.0, dur, intensity, intensity * 3600.0)
  }

  /** Every record's raw charge and seconds read as integers. */
  predicate NumbersRead(records: seq<ForegroundRecord>) {
    forall i :: 0 <= i < |records| ==> RawKey(records[i]).Some? && ParseNat(records[i].dur).Some?
  }

  /** Lines 146-151 for each record of a list already in printed order */
  function Table5Rows(sorted: seq<ForegroundRecord>): (rows: seq<Table5Row>)
    requires NumbersRead(sorted)
    ensures |rows| == |sorted|
    ensures forall i :: 0 <= i < |rows| ==> rows[i] == Table5RowOf(sorted[i])
  {
    seq(|sorted|, i requires 0 <= i < |sorted| && NumbersRead(sorted) => Table5RowOf(sorted[i]))
  }

  /** Each row's mAh, intensity and projection follow from its raw charge
      and seconds as lines 147-151 compute them. */
  predicate DerivedColumns(rows: seq<Table5Row>) {
    forall t :: t in rows ==>
      t.intensity == Intensity(t.raw, t.dur) && t.projected == t.intensity * 3600.0 && t.mah * 1000.0 == t.raw as real
  }

  /** What `render_table_5` prints: the rows in order, or None where `int`
      raises */
  function Table5(records: seq<ForegroundRecord>): (r: Option<seq<Table5Row>>)
    ensures r.Some? ==> |r.value| == |records|
    ensures r.Some? ==> DerivedColumns(r.value)
  {
    if !NumbersRead(records) then None
    else
      var sorted := SortDesc(records, RawOrder);
      assert NumbersRead(sorted) by {
        PermutedAll(records, sorted, r => RawKey(r).Some? && ParseNat(r.dur).Some?);
      }
      assert |sorted| == |records| by {
        assert |multiset(sorted)| == |multiset(records)|;
      }
      Some(Table5Rows(sorted))
  }

  /** Table 5 lists every record once, by descending raw charge, records of
      equal charge in the order they were collected. */
  lemma Table5Order(records: seq<ForegroundRecord>)
    requires NumbersRead(records)
    ensures Table5(records).Some?
    ensures multiset(SortDesc(records, RawOrder)) == multiset(records)
    ensures NumbersRead(SortDesc(records, RawOrder))
    ensures Table5(records).value == Table5Rows(SortDesc(records, RawOrder))
    ensures forall i, j :: 0 <= i < j < |Table5(records).value| ==>
      Table5(records).value[i].raw >= Table5(records).value[j].raw
    ensures forall v :: WithKey(SortDesc(records, RawOrder), RawOrder, v) == WithKey(records, RawOrder, v)
  {
    var sorted := SortDesc(records, RawOrder);
    PermutedAll(records, sorted, r => RawKey(r).Some? && ParseNat(r.dur).Some?);
    var rows := Table5Rows(sorted);
    assert forall i :: 0 <= i < |rows| ==> rows[i].raw as real == RawOrder(sorted[i]);
    forall v {
      SortStable(records, RawOrder, v);
    }
  }

  /** A row of table 5 with zero seconds has zero intensity and projection;
      otherwise the intensity spread over its seconds gives back its charge
      in mAh. */
  lemma Table5Intensity(records: seq<ForegroundRecord>)
    requires Table5(records).Some?
    ensures forall t :: t in Table5(records).value && t.dur == 0 ==> t.intensity == 0.0 && t.projected == 0.0
    ensures forall t :: t in Table5(records).value && t.dur > 0 ==> t.intensity * t.dur as real == t.mah
  {
    var rows := Table5(records).value;
    forall t | t in rows
      ensures t.dur == 0 ==> t.intensity == 0.0 && t.projected == 0.0
      ensures t.dur > 0 ==> t.intensity * t.dur as real == t.mah
    {
      RowIntensity(t);
    }
  }

  lemma RowIntensity(t: Table5Row)
    requires t.intensity == Intensity(t.raw, t.dur) && t.projected == t.intensity * 3600.0 && t.mah * 1000.0 == t.raw as real
    ensures t.dur == 0 ==> t.intensity == 0.0 && t.projected == 0.0
    ensures t.dur > 0 ==> t.intensity * t.dur as real == t.mah
  {
    var raw := t.raw as real;
    assert t.mah == raw / 1000.0;
  }

  /** 3600000 µAh over one second: 3600 mAh, an intensity of 3600 mAh per
      second and a projection of 12960000 mAh for the hour */
  lemma ProjectionExample()
    ensures RawKey(ForegroundRecord("10", "3600000", "1", "app")).Some?
    ensures ParseNat("1").Some?
    ensures var t := Table5RowOf(ForegroundRecord("10", "3600000", "1", "app"));
      t.raw == 3600000 && t.mah == 3600.0 && t.dur == 1 && t.intensity == 3600.0 && t.projected == 12960000.0
  {
    assert "3600000" == "3600" + "000";
    assert DigitsValue("3600") == 3600 by {
      assert "3600"[..3] == "360" && "360"[..2] == "36" && "36"[..1] == "3";
    }
    assert DigitsValue("000") == 0 by {
      assert "000"[..2] == "00" && "00"[..1] == "0";
    }
    DigitsValueConcat("3600", "000");
  }

  /** The records pass 2 collects always have digit strings for the raw
      charge and the seconds, so the `int()` calls of table 5 never raise. */
  lemma {:induction false} CollectedNumbersRead(fs: seq<LineRows>)
    requires forall k :: 0 <= k < |fs| && fs[k].fg.Some? ==>
      fs[k].fg.value.rawUah != [] && All(fs[k].fg.value.rawUah, IsDigit) &&
      fs[k].fg.value.dur != [] && All(fs[k].fg.value.dur, IsDigit)
    ensures NumbersRead(Extract(fs).foreground)
    decreases |fs|
  {
    if fs != [] {
      var n := |fs| - 1;
      assert forall k :: 0 <= k < n ==> fs[..n][k] == fs[k];
      CollectedNumbersRead(fs[..n]);
      Step2Effect(Extract(fs[..n]), fs[n]);
    }
  }

  lemma ForegroundRecordsWellFormed(lines: seq<string>, uidMap: map<string, string>)
    ensures NumbersRead(Pass2(lines, uidMap).foreground)
  {
    var fs := RowsOfAll(lines, uidMap);
    forall k | 0 <= k < |fs| && fs[k].fg.Some?
      ensures fs[k].fg.value.rawUah != [] && All(fs[k].fg.value.rawUah, IsDigit)
      ensures fs[k].fg.value.dur != [] && All(fs[k].fg.value.dur, IsDigit)
    {
      assert fs[k] == RowsOf(lines[k], uidMap);
    }
    CollectedNumbersRead(fs);
  }
}
