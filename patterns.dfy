/** The regular expressions of batteryAnalysis.py (lines 31-37), each as a
    hand-written matcher that follows Python's `re` semantics for that one
    pattern: greedy runs take the longest span, lazy groups the shortest one
    after which the rest of the pattern matches, `.` stops at a line feed,
    `search` tries every start position from the left, `findall` resumes
    after each match. Each matcher comes with the line layout it accepts
    (a renderer) and a round-trip lemma between the two. */
module Patterns {
  import opened Wrappers
  import opened Text

  /* ---------------- pkg_pattern: Package \[([^\]]+)\] ---------------- */

  const PackageOpen := "Package ["

  predicate NotCloseBracket(c: char) {
    c != ']'
  }

  /** pkg_pattern tried at the first position of `s` */
  function PackageHere(s: string): (r: Option<string>)
    ensures r.Some? ==> r.value != [] && ']' !in r.value && StartsWith(s, PackageOpen + r.value + "]")
  {
    if !StartsWith(s, PackageOpen) then None
    else
      var name := Span(s[|PackageOpen|..], NotCloseBracket).0;
      var rest := Span(s[|PackageOpen|..], NotCloseBracket).1;
      if name != [] && rest != [] then
        assert rest[0] == ']';
        assert s[..|PackageOpen| + |name| + 1] == PackageOpen + name + "]" by {
          assert s[|PackageOpen|..] == name + rest;
          assert s[..|PackageOpen| + |name| + 1] == s[..|PackageOpen|] + s[|PackageOpen|..][..|name| + 1];
        }
        Some(name)
      else None
  }

  /** `pkg_pattern.search(line).group(1)`: the leftmost match */
  function SearchPackage(s: string): (r: Option<string>)
    ensures r.Some? ==> r.value != [] && ']' !in r.value && Contains(s, PackageOpen + r.value + "]")
    decreases |s|
  {
    var here := PackageHere(s);
    if here.Some? then
      assert OccursAt(s, PackageOpen + here.value + "]", 0);
      here
    else
      if s == [] then None
      else
        var r := SearchPackage(s[1..]);
        if r.Some? then
          ContainsTail(s, PackageOpen + r.value + "]");
          r
        else r
  }

  /** Where no match starts, the search moves one character on. */
  lemma SearchPackageSkip(s: string)
    requires s != [] && PackageHere(s).None?
    ensures SearchPackage(s) == SearchPackage(s[1..])
  {
  }

  lemma PackageHereOpen(name: string, b: string)
    requires name != [] && ']' !in name
    ensures PackageHere(PackageOpen + (name + ("]" + b))) == Some(name)
  {
    var s := PackageOpen + (name + ("]" + b));
    assert s[|PackageOpen|..] == name + ("]" + b);
    SpanConcat(name, "]" + b, NotCloseBracket);
  }

  /** No match starts in `a + t` before `t`: then none starts at its first
      position, nor in `a[1..] + t` before `t`. */
  lemma NoMatchBeforeTail(a: string, t: string, here: string -> Option<string>)
    requires a != [] && forall i :: 0 <= i < |a| ==> here((a + t)[i..]).None?
    ensures here(a + t).None?
    ensures forall i :: 0 <= i < |a| - 1 ==> here((a[1..] + t)[i..]).None?
  {
    assert (a + t)[0..] == a + t;
    forall i | 0 <= i < |a| - 1
      ensures here((a[1..] + t)[i..]).None?
    {
      assert (a[1..] + t)[i..] == (a + t)[i + 1..];
    }
  }

  /** A `Package [name]` declaration is found when no match of the pattern
      starts before it on the line: the leftmost match wins. */
  lemma {:induction false} SearchPackageFinds(a: string, name: string, b: string)
    requires name != [] && ']' !in name
    requires forall i :: 0 <= i < |a| ==> PackageHere((a + (PackageOpen + (name + ("]" + b))))[i..]).None?
    ensures SearchPackage(a + (PackageOpen + (name + ("]" + b)))) == Some(name)
    decreases |a|
  {
    var t := PackageOpen + (name + ("]" + b));
    var s := a + t;
    if a == [] {
      assert s == t;
      PackageHereOpen(name, b);
    } else {
      NoMatchBeforeTail(a, t, PackageHere);
      assert SearchPackage(s) == SearchPackage(a[1..] + t) by {
        SearchPackageSkip(s);
        assert s[1..] == a[1..] + t;
      }
      SearchPackageFinds(a[1..], name, b);
    }
  }

  /** No declaration starts at a character other than 'P'. */
  lemma NoPackageAt(s: string)
    requires s != [] && s[0] != 'P'
    ensures PackageHere(s).None?
  {
    assert !StartsWith(s, PackageOpen) by {
      assert |s| < |PackageOpen| || s[..|PackageOpen|][0] != PackageOpen[0];
    }
  }

  /** Empty brackets are no match: the search goes on to the next
      declaration. */
  lemma SearchPackageSkipsEmpty()
    ensures SearchPackage("Package [] Package [x]") == Some("x")
  {
    var s := "Package [] Package [x]";
    var a := "Package [] ";
    assert s == a + (PackageOpen + ("x" + ("]" + [])));
    forall i | 0 <= i < |a|
      ensures PackageHere(s[i..]).None?
    {
      if i == 0 {
        assert s[|PackageOpen|..][0] == ']';
      } else {
        NoPackageAt(s[i..]);
      }
    }
    SearchPackageFinds(a, "x", []);
  }

  /* ---------------- id_pattern: (?:appId|userId)=(\d+) ---------------- */

  const AppIdTag := "appId="
  const UserIdTag := "userId="

  function DigitRun(s: string): (r: Option<string>)
    ensures r.Some? ==> r.value != [] && All(r.value, IsDigit) && StartsWith(s, r.value)
  {
    var d := Span(s, IsDigit).0;
    if d != [] then
      assert s[..|d|] == d;
      Some(d)
    else None
  }

  /** id_pattern tried at the first position of `s` */
  function IdHere(s: string): (r: Option<string>)
    ensures r.Some? ==> r.value != [] && All(r.value, IsDigit)
    ensures r.Some? ==> StartsWith(s, AppIdTag + r.value) || StartsWith(s, UserIdTag + r.value)
  {
    if StartsWith(s, AppIdTag) then
      var d := DigitRun(s[|AppIdTag|..]);
      if d.Some? then
        assert s[..|AppIdTag| + |d.value|] == s[..|AppIdTag|] + s[|AppIdTag|..][..|d.value|];
        d
      else d
    else if StartsWith(s, UserIdTag) then
      var d := DigitRun(s[|UserIdTag|..]);
      if d.Some? then
        assert s[..|UserIdTag| + |d.value|] == s[..|UserIdTag|] + s[|UserIdTag|..][..|d.value|];
        d
      else d
    else None
  }

  /** `id_pattern.search(line).group(1)`: the leftmost match */
  function SearchId(s: string): (r: Option<string>)
    ensures r.Some? ==> r.value != [] && All(r.value, IsDigit)
    ensures r.Some? ==> Contains(s, AppIdTag + r.value) || Contains(s, UserIdTag + r.value)
    decreases |s|
  {
    var here := IdHere(s);
    if here.Some? then
      assert OccursAt(s, AppIdTag + here.value, 0) || OccursAt(s, UserIdTag + here.value, 0);
      here
    else
      if s == [] then None
      else
        var r := SearchId(s[1..]);
        if r.Some? then
          ContainsTail(s, AppIdTag + r.value);
          ContainsTail(s, UserIdTag + r.value);
          r
        else r
  }

  /** A tag at the start followed by a whole digit run is matched there. */
  lemma IdHereTagged(tag: string, uid: string, b: string)
    requires tag == AppIdTag || tag == UserIdTag
    requires uid != [] && All(uid, IsDigit) && (b == [] || !IsDigit(b[0]))
    ensures IdHere(tag + (uid + b)) == Some(uid)
  {
    var s := tag + (uid + b);
    assert s[|tag|..] == uid + b;
    SpanConcat(uid, b, IsDigit);
    if tag == UserIdTag {
      assert !StartsWith(s, AppIdTag) by { assert s[0] == 'u'; }
    }
  }

  /** Where no match starts, the search moves one character on. */
  lemma SearchIdSkip(s: string)
    requires s != [] && IdHere(s).None?
    ensures SearchId(s) == SearchId(s[1..])
  {
  }

  /** An `appId=`/`userId=` declaration is found when no match of the
      pattern starts before it on the line (a tag without digits is no
      match); the whole digit run is the identifier. */
  lemma {:induction false} SearchIdFinds(a: string, tag: string, uid: string, b: string)
    requires tag == AppIdTag || tag == UserIdTag
    requires uid != [] && All(uid, IsDigit) && (b == [] || !IsDigit(b[0]))
    requires forall i :: 0 <= i < |a| ==> IdHere((a + (tag + (uid + b)))[i..]).None?
    ensures SearchId(a + (tag + (uid + b))) == Some(uid)
    decreases |a|
  {
    var t := tag + (uid + b);
    var s := a + t;
    if a == [] {
      assert s == t;
      IdHereTagged(tag, uid, b);
    } else {
      NoMatchBeforeTail(a, t, IdHere);
      assert SearchId(s) == SearchId(a[1..] + t) by {
        SearchIdSkip(s);
        assert s[1..] == a[1..] + t;
      }
      SearchIdFinds(a[1..], tag, uid, b);
    }
  }

  /** No id starts at a character other than 'a' or 'u'. */
  lemma NoIdAt(s: string)
    requires s != [] && s[0] != 'a' && s[0] != 'u'
    ensures IdHere(s).None?
  {
    assert !StartsWith(s, AppIdTag) by {
      assert |s| < |AppIdTag| || s[..|AppIdTag|][0] != AppIdTag[0];
    }
    assert !StartsWith(s, UserIdTag) by {
      assert |s| < |UserIdTag| || s[..|UserIdTag|][0] != UserIdTag[0];
    }
  }

  /** A tag followed by no digit is skipped: the search goes on to a later
      tag, as `re.search` tries the next start position. */
  lemma SearchIdSkipsBareTag()
    ensures SearchId("appId=x userId=5") == Some("5")
  {
    var s := "appId=x userId=5";
    var a := "appId=x ";
    assert s == a + (UserIdTag + ("5" + []));
    forall i | 0 <= i < |a|
      ensures IdHere(s[i..]).None?
    {
      if i == 0 {
        assert s[|AppIdTag|..][0] == 'x';
      } else {
        NoIdAt(s[i..]);
      }
    }
    SearchIdFinds(a, UserIdTag, "5", []);
  }

  /* ------- kv_row_re: ^\s*(\d+):\s*([\d\.]+)\s*\((.*?)\) ------- */

  datatype KvMatch = KvMatch(uid: string, mah: string, details: string)

  /** `(.*?)\)`: the text before the first ')', provided no line feed comes
      first (`.` does not match one). */
  function UntilClose(s: string): (r: Option<string>)
    ensures r.Some? ==> ')' !in r.value && '\n' !in r.value && StartsWith(s, r.value + ")")
    decreases |s|
  {
    if s == [] || s[0] == '\n' then None
    else if s[0] == ')' then Some([])
    else
      match UntilClose(s[1..])
      case Some(d) =>
        assert s[..|d| + 2] == [s[0]] + s[1..][..|d| + 1];
        Some([s[0]] + d)
      case None => None
  }

  /** `kv_row_re.search(line)`, anchored at the start of the line */
  function ParseKvRow(line: string): (r: Option<KvMatch>)
    ensures r.Some? ==> r.value.uid != [] && All(r.value.uid, IsDigit)
    ensures r.Some? ==> r.value.mah != [] && All(r.value.mah, IsNumChar)
    ensures r.Some? ==> ')' !in r.value.details && '\n' !in r.value.details
  {
    var u := Span(DropWs(line), IsDigit);
    if u.0 == [] || u.1 == [] || u.1[0] != ':' then None
    else
      var m := Span(DropWs(u.1[1..]), IsNumChar);
      var r3 := DropWs(m.1);
      if m.0 == [] || r3 == [] || r3[0] != '(' then None
      else
        var d := UntilClose(r3[1..]);
        if d.None? then None else Some(KvMatch(u.0, m.0, d.value))
  }

  /** The layout of a per-app key=value row: `lead uid: gap mah pad(details)rest`,
      the three pads being runs of whitespace. */
  function KvLine(lead: string, uid: string, gap: string, mah: string, pad: string,
                  details: string, rest: string): string
  {
    lead + (uid + (":" + (gap + (mah + (pad + ("(" + (details + (")" + rest))))))))
  }

  lemma {:induction false} UntilCloseConcat(details: string, rest: string)
    requires ')' !in details && '\n' !in details
    ensures UntilClose(details + (")" + rest)) == Some(details)
    decreases |details|
  {
    var s := details + (")" + rest);
    if details != [] {
      assert s[0] == details[0];
      assert s[1..] == details[1..] + (")" + rest);
      UntilCloseConcat(details[1..], rest);
      assert [details[0]] + details[1..] == details;
    }
  }

  /** The steps of `kv_row_re`, given what each sub-pattern consumes */
  lemma KvRowOf(line: string, uid: string, r1: string, mah: string, r2: string, r4: string, details: string)
    requires Span(DropWs(line), IsDigit) == (uid, ":" + r1) && uid != []
    requires Span(DropWs(r1), IsNumChar) == (mah, r2) && mah != []
    requires DropWs(r2) == "(" + r4 && UntilClose(r4) == Some(details)
    ensures ParseKvRow(line) == Some(KvMatch(uid, mah, details))
  {
    assert (":" + r1)[1..] == r1;
    assert ("(" + r4)[1..] == r4;
  }

  /** `\s*` then a run of `p` then a character outside `p` */
  lemma PaddedRun(w: string, x: string, t: string, p: char -> bool)
    requires All(w, IsSpace) && x != [] && All(x, p) && !IsSpace(x[0])
    requires t != [] && !p(t[0])
    ensures Span(DropWs(w + (x + t)), p) == (x, t)
  {
    assert (x + t)[0] == x[0];
    DropWsConcat(w, x + t);
    SpanConcat(x, t, p);
  }

  lemma DigitNotSpace(c: char)
    requires IsNumChar(c)
    ensures !IsSpace(c)
  {
  }

  /** Every row written in the key=value layout is matched, and its three
      groups are given back. */
  lemma KvRowRoundTrip(lead: string, uid: string, gap: string, mah: string, pad: string,
                       details: string, rest: string)
    requires All(lead, IsSpace) && All(gap, IsSpace) && All(pad, IsSpace)
    requires uid != [] && All(uid, IsDigit)
    requires mah != [] && All(mah, IsNumChar)
    requires ')' !in details && '\n' !in details
    ensures ParseKvRow(KvLine(lead, uid, gap, mah, pad, details, rest)) == Some(KvMatch(uid, mah, details))
  {
    var r4 := details + (")" + rest);
    var t4 := pad + ("(" + r4);
    var t3 := gap + (mah + t4);
    DigitNotSpace(uid[0]);
    DigitNotSpace(mah[0]);
    PaddedRun(lead, uid, ":" + t3, IsDigit);
    assert t4 != [] && !IsNumChar(t4[0]) by {
      assert t4[0] == if pad == [] then '(' else pad[0];
    }
    PaddedRun(gap, mah, t4, IsNumChar);
    DropWsConcat(pad, "(" + r4);
    UntilCloseConcat(details, rest);
    KvRowOf(KvLine(lead, uid, gap, mah, pad, details, rest), uid, t3, mah, t4, r4, details);
  }

  /** Conversely, every matched row is written in the key=value layout. */
  lemma KvRowSound(line: string)
    requires ParseKvRow(line).Some?
    ensures var m := ParseKvRow(line).value;
      exists lead, gap, pad, rest ::
        && All(lead, IsSpace) && All(gap, IsSpace) && All(pad, IsSpace)
        && line == KvLine(lead, m.uid, gap, m.mah, pad, m.details, rest)
  {
    var m := ParseKvRow(line).value;
    KvRowSome(line);
    var lead := LeadingSpace(line);
    var r1 := Span(DropWs(line), IsDigit).1;
    var gap := LeadingSpace(r1[1..]);
    var r2 := Span(DropWs(r1[1..]), IsNumChar).1;
    var pad := LeadingSpace(r2);
    var r3 := DropWs(r2);
    var rest := UntilCloseRest(r3[1..]);
    KvLayout(line, lead, m.uid, r1, gap, m.mah, r2, pad, r3, m.details, rest);
  }

  /** What follows the ')' that ends a lazy `(.*?)\)` */
  lemma UntilCloseRest(s: string) returns (rest: string)
    requires UntilClose(s).Some?
    ensures s == UntilClose(s).value + (")" + rest)
  {
    var d := UntilClose(s).value;
    rest := s[|d| + 1..];
    assert s[..|d| + 1] == d + ")";
    assert s == s[..|d| + 1] + rest;
  }

  /** What a successful match of `kv_row_re` consumed, step by step */
  lemma KvRowSome(line: string)
    requires ParseKvRow(line).Some?
    ensures var m := ParseKvRow(line).value;
      && var u := Span(DropWs(line), IsDigit);
      && u.0 == m.uid && u.1 != [] && u.1[0] == ':'
      && var mm := Span(DropWs(u.1[1..]), IsNumChar);
      && mm.0 == m.mah
      && var r3 := DropWs(mm.1);
      && r3 != [] && r3[0] == '(' && UntilClose(r3[1..]) == Some(m.details)
  {
  }

  /** The concatenation steps behind `KvRowSound`. */
  lemma KvLayout(line: string, lead: string, uid: string, r1: string,
                 gap: string, mah: string, r2: string, pad: string,
                 r3: string, details: string, rest: string)
    requires line == lead + DropWs(line) && DropWs(line) == uid + r1 && r1 != [] && r1[0] == ':'
    requires r1[1..] == gap + DropWs(r1[1..]) && DropWs(r1[1..]) == mah + r2 && r2 == pad + r3
    requires r3 != [] && r3[0] == '(' && r3[1..] == details + (")" + rest)
    ensures line == KvLine(lead, uid, gap, mah, pad, details, rest)
  {
    assert r3 == "(" + (details + (")" + rest));
    assert r1 == ":" + (gap + DropWs(r1[1..]));
  }

  /* -------- kv_pairs_re: (\w+)=([\w\s\d\.msdh]+?)(?=\s\w+=|$) -------- */

  /** `[\w\s\d\.msdh]` */
  predicate IsValueChar(c: char) {
    IsWordChar(c) || IsSpace(c) || c == '.'
  }

  /** `(\w+)=` at the first position of `s`: the key and the text after '=' */
  function KeyEq(s: string): (r: Option<(string, string)>)
    ensures r.Some? ==> r.value.0 != [] && All(r.value.0, IsWordChar) && |r.value.1| < |s|
  {
    var k := Span(s, IsWordChar);
    if k.0 != [] && k.1 != [] && k.1[0] == '=' then Some((k.0, k.1[1..])) else None
  }

  /** `(?=\s\w+=|$)`: end of text, the line feed that ends it, or whitespace
      and the next `key=` */
  predicate ValueMayEnd(s: string) {
    s == [] || s == "\n" || (IsSpace(s[0]) && KeyEq(s[1..]).Some?)
  }

  /** The lazy value group: the shortest non-empty run of value characters
      after which the lookahead holds; the value and the rest. */
  function LazyValue(s: string): (r: Option<(string, string)>)
    ensures r.Some? ==> r.value.0 != [] && All(r.value.0, IsValueChar) && r.value.0 + r.value.1 == s
    decreases |s|
  {
    if s == [] || !IsValueChar(s[0]) then None
    else if ValueMayEnd(s[1..]) then Some(([s[0]], s[1..]))
    else
      var more := LazyValue(s[1..]);
      if more.None? then None else Some(([s[0]] + more.value.0, more.value.1))
  }

  /** kv_pairs_re tried at the first position of `s`: key, value and the rest */
  function PairHere(s: string): (r: Option<(string, string, string)>)
    ensures r.Some? ==> r.value.0 != [] && All(r.value.0, IsWordChar)
    ensures r.Some? ==> r.value.1 != [] && All(r.value.1, IsValueChar)
    ensures r.Some? ==> |r.value.2| < |s|
  {
    var k := KeyEq(s);
    if k.None? then None
    else
      var v := LazyValue(k.value.1);
      if v.None? then None else Some((k.value.0, v.value.0, v.value.1))
  }

  /** `kv_pairs_re.findall(details)`: the (key, value) pairs, left to right */
  function FindPairs(d: string): (r: seq<(string, string)>)
    ensures forall i :: 0 <= i < |r| ==> r[i].0 != [] && All(r[i].0, IsWordChar)
    ensures forall i :: 0 <= i < |r| ==> r[i].1 != [] && All(r[i].1, IsValueChar)
    decreases |d|
  {
    if d == [] then []
    else
      var p := PairHere(d);
      if p.Some? then [(p.value.0, p.value.1)] + FindPairs(p.value.2)
      else FindPairs(d[1..])
  }

  /** A value character other than the line feed */
  predicate IsPlainValueChar(c: char) {
    IsValueChar(c) && c != '\n'
  }

  predicate WellFormedPair(p: (string, string)) {
    p.0 != [] && All(p.0, IsWordChar) && p.1 != [] && All(p.1, IsPlainValueChar)
  }

  /** `k1=v1 k2=v2 ...`, pairs separated by one space */
  function JoinPairs(ps: seq<(string, string)>): string
    decreases |ps|
  {
    if ps == [] then []
    else ps[0].0 + ("=" + (ps[0].1 + (if |ps| == 1 then [] else " " + JoinPairs(ps[1..]))))
  }

  /** No `key=` can start inside a value that is followed by a space or the end. */
  lemma KeyEqFails(x: string, rest: string)
    requires All(x, IsPlainValueChar)
    requires rest == [] || rest[0] == ' '
    ensures KeyEq(x + rest).None?
  {
    var (k, r) := Span(x + rest, IsWordChar);
    if rest != [] {
      assert (x + rest)[|x|] == rest[0];
      SpanStops(x + rest, |x|, IsWordChar);
    }
    if |k| < |x| {
      assert r == (x + rest)[|k|..];
      assert r[0] == x[|k|];
    } else {
      assert k + r == x + rest;
      assert r == rest;
    }
  }

  /** Splitting off the first character of a concatenation */
  lemma ConsTail(g: string, tail: string)
    requires g != []
    ensures (g + tail)[0] == g[0] && (g + tail)[1..] == g[1..] + tail && [g[0]] + g[1..] == g
  {
  }

  /** The lazy value stops as soon as the lookahead holds. */
  lemma LazyValueStops(s: string)
    requires s != [] && IsValueChar(s[0]) && ValueMayEnd(s[1..])
    ensures LazyValue(s) == Some(([s[0]], s[1..]))
  {
  }

  /** Otherwise it takes one more character. */
  lemma LazyValueGoesOn(s: string)
    requires s != [] && IsValueChar(s[0]) && !ValueMayEnd(s[1..]) && LazyValue(s[1..]).Some?
    ensures LazyValue(s) == Some(([s[0]] + LazyValue(s[1..]).value.0, LazyValue(s[1..]).value.1))
  {
  }

  /** Inside a plain value followed by a space or the end, the lookahead fails. */
  lemma NoEndInside(v: string, rest: string)
    requires |v| >= 2 && All(v, IsPlainValueChar)
    requires rest == [] || rest[0] == ' '
    ensures !ValueMayEnd(v[1..] + rest)
  {
    var t := v[1..] + rest;
    assert t[0] == v[1] && t != "\n";
    if IsSpace(v[1]) {
      assert t[1..] == v[2..] + rest;
      KeyEqFails(v[2..], rest);
    }
  }

  lemma {:induction false} LazyValueConcat(v: string, rest: string)
    requires v != [] && All(v, IsPlainValueChar)
    requires rest == [] || (rest[0] == ' ' && KeyEq(rest[1..]).Some?)
    ensures LazyValue(v + rest) == Some((v, rest))
    decreases |v|
  {
    var s := v + rest;
    ConsTail(v, rest);
    if |v| == 1 {
      assert v[1..] == [];
      assert s[1..] == rest;
      LazyValueStops(s);
    } else {
      NoEndInside(v, rest);
      LazyValueConcat(v[1..], rest);
      LazyValueGoesOn(s);
    }
  }

  /** One written pair is matched at its start. */
  lemma PairHereConcat(k: string, v: string, tail: string)
    requires WellFormedPair((k, v))
    requires tail == [] || (tail[0] == ' ' && KeyEq(tail[1..]).Some?)
    ensures PairHere(k + ("=" + (v + tail))) == Some((k, v, tail))
  {
    assert !IsWordChar('=');
    SpanConcat(k, "=" + (v + tail), IsWordChar);
    assert ("=" + (v + tail))[1..] == v + tail;
    LazyValueConcat(v, tail);
  }

  /** Written pairs start with `key=`. */
  lemma KeyEqJoin(ps: seq<(string, string)>)
    requires ps != [] && WellFormedPair(ps[0])
    ensures KeyEq(JoinPairs(ps)).Some?
  {
    var t := ps[0].1 + (if |ps| == 1 then [] else " " + JoinPairs(ps[1..]));
    assert !IsWordChar('=');
    SpanConcat(ps[0].0, "=" + t, IsWordChar);
  }

  /** No pair starts at a space. */
  lemma NoPairAtSpace(t: string)
    requires t != [] && t[0] == ' '
    ensures PairHere(t).None?
  {
    assert !IsWordChar(' ');
    SpanConcat([], t, IsWordChar);
  }

  /** findall gives back exactly the pairs of a details text written as
      space-separated `key=value` pairs. */
  lemma {:induction false} FindPairsRoundTrip(ps: seq<(string, string)>)
    requires forall i :: 0 <= i < |ps| ==> WellFormedPair(ps[i])
    ensures FindPairs(JoinPairs(ps)) == ps
    decreases |ps|
  {
    if ps != [] {
      var tail := if |ps| == 1 then [] else " " + JoinPairs(ps[1..]);
      var s := JoinPairs(ps);
      assert s == ps[0].0 + ("=" + (ps[0].1 + tail));
      if |ps| > 1 {
        assert tail[1..] == JoinPairs(ps[1..]);
        KeyEqJoin(ps[1..]);
      }
      PairHereConcat(ps[0].0, ps[0].1, tail);
      assert FindPairs(s) == [ps[0]] + FindPairs(tail);
      if |ps| > 1 {
        NoPairAtSpace(tail);
        assert FindPairs(tail) == FindPairs(JoinPairs(ps[1..]));
        FindPairsRoundTrip(ps[1..]);
        assert [ps[0]] + ps[1..] == ps;
      }
    }
  }

  /* --------- cells: \s*(p+)\s*\| as in coll_row_re and fg_row_re --------- */

  /** `\s*(p+)\s*\|` at the start of `s`: the cell's value and the rest */
  function Cell(s: string, p: char -> bool): (r: Option<(string, string)>)
    ensures r.Some? ==> r.value.0 != [] && All(r.value.0, p) && |r.value.1| < |s|
  {
    var v := Span(DropWs(s), p);
    var t := DropWs(v.1);
    if v.0 != [] && t != [] && t[0] == '|' then Some((v.0, t[1..])) else None
  }

  /** Consecutive cells, the i-th of whose values is a run of `ps[i]` */
  function ParseCells(s: string, ps: seq<char -> bool>): (r: Option<(seq<string>, string)>)
    ensures r.Some? ==> |r.value.0| == |ps|
    ensures r.Some? ==> forall i :: 0 <= i < |ps| ==> r.value.0[i] != [] && All(r.value.0[i], ps[i])
    decreases |ps|
  {
    if ps == [] then Some(([], s))
    else
      var c := Cell(s, ps[0]);
      if c.None? then None
      else
        var more := ParseCells(c.value.1, ps[1..]);
        if more.None? then None
        else
          ConsCells(c.value.0, ps, more.value.0);
          Some(([c.value.0] + more.value.0, more.value.1))
  }

  lemma ConsCells(v: string, ps: seq<char -> bool>, vs: seq<string>)
    requires ps != [] && v != [] && All(v, ps[0]) && |vs| == |ps| - 1
    requires forall i :: 0 <= i < |vs| ==> vs[i] != [] && All(vs[i], ps[1..][i])
    ensures forall i :: 0 <= i < |ps| ==> ([v] + vs)[i] != [] && All(([v] + vs)[i], ps[i])
  {
    forall i | 1 <= i < |ps|
      ensures ([v] + vs)[i] != [] && All(([v] + vs)[i], ps[i])
    {
      assert ([v] + vs)[i] == vs[i - 1] && ps[i] == ps[1..][i - 1];
    }
  }

  /** The layout of consecutive cells `lead value trail|`, then `rest` */
  function CellsThen(leads: seq<string>, vals: seq<string>, trails: seq<string>, rest: string): string
    requires |leads| == |vals| == |trails|
    decreases |vals|
  {
    if vals == [] then rest
    else leads[0] + (vals[0] + (trails[0] + ("|" + CellsThen(leads[1..], vals[1..], trails[1..], rest))))
  }

  /** A cell class holds neither whitespace nor the cell separator. */
  ghost predicate CellClass(p: char -> bool) {
    forall c :: p(c) ==> !IsSpace(c) && c != '|'
  }

  lemma CellConcat(lead: string, v: string, trail: string, rest: string, p: char -> bool)
    requires CellClass(p)
    requires All(lead, IsSpace) && All(trail, IsSpace) && v != [] && All(v, p)
    ensures Cell(lead + (v + (trail + ("|" + rest))), p) == Some((v, rest))
  {
    var t := trail + ("|" + rest);
    assert (v + t)[0] == v[0];
    DropWsConcat(lead, v + t);
    assert t[0] == if trail == [] then '|' else trail[0];
    SpanConcat(v, t, p);
    DropWsConcat(trail, "|" + rest);
    assert ("|" + rest)[1..] == rest;
  }

  /** Cells written with whitespace padding, the i-th value a run of `ps[i]` */
  ghost predicate CellsLayout(leads: seq<string>, vals: seq<string>, trails: seq<string>, ps: seq<char -> bool>) {
    && |leads| == |vals| == |trails| == |ps|
    && (forall i :: 0 <= i < |ps| ==> All(leads[i], IsSpace) && All(trails[i], IsSpace))
    && (forall i :: 0 <= i < |ps| ==> vals[i] != [] && All(vals[i], ps[i]))
  }

  lemma {:induction false} CellsRoundTrip(leads: seq<string>, vals: seq<string>, trails: seq<string>,
                                          rest: string, ps: seq<char -> bool>)
    requires CellsLayout(leads, vals, trails, ps)
    requires forall i :: 0 <= i < |ps| ==> CellClass(ps[i])
    ensures ParseCells(CellsThen(leads, vals, trails, rest), ps) == Some((vals, rest))
    decreases |ps|
  {
    if ps != [] {
      var tail := CellsThen(leads[1..], vals[1..], trails[1..], rest);
      CellConcat(leads[0], vals[0], trails[0], tail, ps[0]);
      CellsRoundTrip(leads[1..], vals[1..], trails[1..], rest, ps[1..]);
      assert [vals[0]] + vals[1..] == vals;
    }
  }

  /** `(.*)`: the text up to the first line feed */
  function RestOfLine(s: string): (r: string)
    ensures '\n' !in r && StartsWith(s, r)
  {
    var r := Span(s, NotNewline).0;
    assert s[..|r|] == r;
    r
  }

  /* -------- fg_row_re: seven cells, then \s*(.*) -------- */

  datatype ForegroundMatch = ForegroundMatch(uid: string, rawUah: string, dur: string, pkgRaw: string)

  /** The classes of the seven cells: uid, raw uAh, four decimals, seconds */
  const ForegroundCells: seq<char -> bool> :=
    [IsDigit, IsDigit, IsNumChar, IsNumChar, IsNumChar, IsNumChar, IsDigit]

  /** `fg_row_re.search(line)`, anchored at the start of the line */
  function ParseForegroundRow(line: string): (r: Option<ForegroundMatch>)
    ensures r.Some? ==> r.value.uid != [] && All(r.value.uid, IsDigit)
    ensures r.Some? ==> r.value.rawUah != [] && All(r.value.rawUah, IsDigit)
    ensures r.Some? ==> r.value.dur != [] && All(r.value.dur, IsDigit)
    ensures r.Some? ==> '\n' !in r.value.pkgRaw
  {
    var cells := ParseCells(line, ForegroundCells);
    if cells.None? then None
    else
      var vs := cells.value.0;
      Some(ForegroundMatch(vs[0], vs[1], vs[6], RestOfLine(DropWs(cells.value.1))))
  }

  /** `\s*(.*)` over padding and a text without line feeds */
  lemma TrailingText(lead: string, text: string)
    requires All(lead, IsSpace) && '\n' !in text && (text == [] || !IsSpace(text[0]))
    ensures RestOfLine(DropWs(lead + text)) == text
  {
    DropWsConcat(lead, text);
    SpanConcat(text, [], NotNewline);
    assert text + [] == text;
  }

  lemma ForegroundCellClasses()
    ensures forall i :: 0 <= i < |ForegroundCells| ==> CellClass(ForegroundCells[i])
  {
    assert CellClass(IsDigit);
    assert CellClass(IsNumChar);
  }

  /** A foreground row written as seven cells and a trailing name text is
      matched, and gives back its uid, raw charge, seconds and name text. */
  lemma ForegroundRowRoundTrip(leads: seq<string>, vals: seq<string>, trails: seq<string>,
                               lead: string, pkgRaw: string)
    requires CellsLayout(leads, vals, trails, ForegroundCells)
    requires All(lead, IsSpace) && '\n' !in pkgRaw && (pkgRaw == [] || !IsSpace(pkgRaw[0]))
    ensures ParseForegroundRow(CellsThen(leads, vals, trails, lead + pkgRaw))
         == Some(ForegroundMatch(vals[0], vals[1], vals[6], pkgRaw))
  {
    var line := CellsThen(leads, vals, trails, lead + pkgRaw);
    ForegroundCellsRoundTrip(leads, vals, trails, lead + pkgRaw);
    ForegroundRowOf(line, vals, lead + pkgRaw);
    TrailingText(lead, pkgRaw);
  }

  lemma ForegroundCellsRoundTrip(leads: seq<string>, vals: seq<string>, trails: seq<string>, rest: string)
    requires CellsLayout(leads, vals, trails, ForegroundCells)
    ensures ParseCells(CellsThen(leads, vals, trails, rest), ForegroundCells) == Some((vals, rest))
  {
    ForegroundCellClasses();
    CellsRoundTrip(leads, vals, trails, rest, ForegroundCells);
  }

  lemma ForegroundRowOf(line: string, vals: seq<string>, rest: string)
    requires ParseCells(line, ForegroundCells) == Some((vals, rest))
    ensures ParseForegroundRow(line) == Some(ForegroundMatch(vals[0], vals[1], vals[6], RestOfLine(DropWs(rest))))
  {
  }

  predicate NotLt(c: char) {
    c != '<'
  }

  /** `pkg_raw.split('<')[0].strip()`: the text before the first '<', stripped */
  function ForegroundName(pkgRaw: string): (r: string)
    ensures '<' !in r
    ensures r == [] || (!IsSpace(r[0]) && !IsSpace(r[|r| - 1]))
  {
    var before := Span(pkgRaw, NotLt).0;
    var r := Strip(before);
    var i: nat :| OccursAt(before, r, i);
    AllInfix(before, r, i, NotLt);
    r
  }

  /** The name is what precedes the first '<', stripped. */
  lemma ForegroundNameBeforeLt(x: string, tail: string)
    requires '<' !in x
    requires tail == [] || tail[0] == '<'
    ensures ForegroundName(x + tail) == Strip(x)
  {
    SpanConcat(x, tail, NotLt);
  }

  /* ---- coll_row_re: two cells, (.*?)\s*\| twice, then \s*(.*) ---- */

  datatype CollectorMatch = CollectorMatch(uid: string, mah: string, fg: string, bg: string, pkg: string)

  /** What a match of `(.*?)\s*\|` at the start of `s` guarantees about its
      group `g` and the text `rest` after the '|': `s` starts with `g`, which
      holds neither '|' nor a line feed and does not end in whitespace; an
      empty group means `\s*\|` matches right away. */
  ghost predicate LazyFieldOk(s: string, g: string, rest: string) {
    && '|' !in g && '\n' !in g && StartsWith(s, g)
    && (g == [] || !IsSpace(g[|g| - 1]))
    && (g == [] ==> DropWs(s) != [] && DropWs(s)[0] == '|')
    && |rest| < |s|
  }

  /** `(.*?)\s*\|` at the start of `s`: the shortest group after which optional
      whitespace and '|' follow, provided it holds no line feed; the group
      and the text after the '|'. */
  function LazyField(s: string): (r: Option<(string, string)>)
    ensures r.Some? ==> LazyFieldOk(s, r.value.0, r.value.1)
    decreases |s|
  {
    var t := DropWs(s);
    if t != [] && t[0] == '|' then Some(([], t[1..]))
    else if s == [] || s[0] == '\n' then None
    else
      var more := LazyField(s[1..]);
      if more.None? then None
      else
        LazyFieldStep(s, more.value.0, more.value.1);
        Some(([s[0]] + more.value.0, more.value.1))
  }

  /** Taking one more character keeps what the match guarantees. */
  lemma LazyFieldStep(s: string, g: string, rest: string)
    requires s != [] && s[0] != '\n' && (DropWs(s) == [] || DropWs(s)[0] != '|')
    requires LazyFieldOk(s[1..], g, rest)
    ensures LazyFieldOk(s, [s[0]] + g, rest)
  {
    NoBarFirst(s);
    NoSpaceBeforeBar(s);
    GroupStep(s, g);
  }

  lemma GroupStep(s: string, g: string)
    requires s != [] && s[0] != '\n' && s[0] != '|'
    requires '|' !in g && '\n' !in g && StartsWith(s[1..], g)
    requires g == [] || !IsSpace(g[|g| - 1])
    requires g == [] ==> !IsSpace(s[0])
    ensures '|' !in [s[0]] + g && '\n' !in [s[0]] + g && StartsWith(s, [s[0]] + g)
    ensures !IsSpace(([s[0]] + g)[|g|])
  {
    if g != [] {
      assert ([s[0]] + g)[|g|] == g[|g| - 1];
    }
    assert s[..|g| + 1] == [s[0]] + s[1..][..|g|];
  }

  /** When `\s*\|` matches one character later but not here, the first
      character is not whitespace. */
  lemma NoSpaceBeforeBar(s: string)
    requires s != [] && (DropWs(s) == [] || DropWs(s)[0] != '|')
    ensures DropWs(s[1..]) != [] && DropWs(s[1..])[0] == '|' ==> !IsSpace(s[0])
  {
    DropWsSkip(s);
  }

  /** When `\s*\|` does not match at the start, `s` does not start with '|'. */
  lemma NoBarFirst(s: string)
    requires s != [] && (DropWs(s) == [] || DropWs(s)[0] != '|')
    ensures s[0] != '|'
  {
    assert !IsSpace('|');
    if s[0] == '|' {
      DropWsNone(s);
    }
  }

  /** One step of the lazy group: when the rest of the pattern cannot match
      yet, the group takes the first character. */
  lemma LazyFieldUnfold(s: string)
    requires s != [] && s[0] != '\n'
    requires DropWs(s) == [] || DropWs(s)[0] != '|'
    requires LazyField(s[1..]).Some?
    ensures LazyField(s) == Some(([s[0]] + LazyField(s[1..]).value.0, LazyField(s[1..]).value.1))
  {
  }

  /** Text that is not all whitespace keeps the next '|' out of reach. */
  lemma NoBarAhead(g: string, tail: string)
    requires g != [] && '|' !in g && !IsSpace(g[|g| - 1])
    ensures DropWs(g + tail) != [] && DropWs(g + tail)[0] != '|'
  {
    DropWsInside(g, tail);
    var dg := DropWs(g);
    assert dg[0] == g[|g| - |dg|];
  }

  lemma FieldTail(g: string)
    requires g != [] && '|' !in g && '\n' !in g && !IsSpace(g[|g| - 1])
    ensures '|' !in g[1..] && '\n' !in g[1..] && (g[1..] == [] || !IsSpace(g[1..][|g| - 2]))
  {
  }

  lemma LazyFieldAtBar(w: string, rest: string)
    requires All(w, IsSpace)
    ensures LazyField(w + ("|" + rest)) == Some(([], rest))
  {
    DropWsConcat(w, "|" + rest);
    assert ("|" + rest)[1..] == rest;
  }

  lemma {:induction false} LazyFieldConcat(g: string, w: string, rest: string)
    requires '|' !in g && '\n' !in g && (g == [] || !IsSpace(g[|g| - 1]))
    requires All(w, IsSpace)
    ensures LazyField(g + (w + ("|" + rest))) == Some((g, rest))
    decreases |g|
  {
    var tail := w + ("|" + rest);
    if g == [] {
      assert g + tail == tail;
      LazyFieldAtBar(w, rest);
    } else {
      var s := g + tail;
      var g' := g[1..];
      FieldTail(g);
      LazyFieldConcat(g', w, rest);
      ConsTail(g, tail);
      NoBarAhead(g, tail);
      LazyFieldUnfold(s);
    }
  }

  lemma FieldStartsPlain(s: string, f: string)
    requires s == [] || !IsSpace(s[0])
    requires StartsWith(s, f)
    ensures f == [] || !IsSpace(f[0])
  {
    if f != [] {
      assert f[0] == s[..|f|][0];
    }
  }

  /** The classes of the two cells: uid and mAh */
  const CollectorCells: seq<char -> bool> := [IsDigit, IsNumChar]

  /** A field text free of '|' and line feeds with no surrounding whitespace */
  predicate PlainField(f: string) {
    '|' !in f && '\n' !in f && (f == [] || (!IsSpace(f[0]) && !IsSpace(f[|f| - 1])))
  }

  /** The group of `(.*?)\s*\|` after `\s*` is a plain field. */
  lemma LazyFieldPlain(s: string)
    requires LazyField(DropWs(s)).Some?
    ensures PlainField(LazyField(DropWs(s)).value.0)
  {
    FieldStartsPlain(DropWs(s), LazyField(DropWs(s)).value.0);
  }

  /** `\s*(.*?)\s*\|\s*(.*?)\s*\|\s*(.*)`: the foreground and background
      fields and the raw name text after the two cells */
  function CollectorFields(s: string): (r: Option<(string, string, string)>)
    ensures r.Some? ==> PlainField(r.value.0) && PlainField(r.value.1)
  {
    var f1 := LazyField(DropWs(s));
    if f1.None? then None
    else
      var f2 := LazyField(DropWs(f1.value.1));
      if f2.None? then None
      else
        LazyFieldPlain(s);
        LazyFieldPlain(f1.value.1);
        Some((f1.value.0, f2.value.0, RestOfLine(DropWs(f2.value.1))))
  }

  /** `coll_row_re.search(line)`, anchored at the start of the line */
  function ParseCollectorRow(line: string): (r: Option<CollectorMatch>)
    ensures r.Some? ==> r.value.uid != [] && All(r.value.uid, IsDigit)
    ensures r.Some? ==> r.value.mah != [] && All(r.value.mah, IsNumChar)
    ensures r.Some? ==> PlainField(r.value.fg) && PlainField(r.value.bg)
  {
    var cells := ParseCells(line, CollectorCells);
    if cells.None? then None
    else
      var f := CollectorFields(cells.value.1);
      if f.None? then None
      else
        var vs := cells.value.0;
        assert All(vs[0], IsDigit) && All(vs[1], IsNumChar) by {
          assert All(vs[0], CollectorCells[0]);
          assert All(vs[1], CollectorCells[1]);
        }
        Some(CollectorMatch(vs[0], vs[1], f.value.0, f.value.1, f.value.2))
  }

  /** The layout of a collector row: two cells, then
      `lead1 fg trail1| lead2 bg trail2| lead3 name trail3`. */
  function CollectorLine(leads: seq<string>, vals: seq<string>, trails: seq<string>,
                         lead1: string, fg: string, trail1: string,
                         lead2: string, bg: string, trail2: string,
                         lead3: string, name: string, trail3: string): string
    requires |leads| == |vals| == |trails|
  {
    CellsThen(leads, vals, trails,
      lead1 + (fg + (trail1 + ("|" + (lead2 + (bg + (trail2 + ("|" + (lead3 + (name + trail3))))))))))
  }

  lemma PaddedFieldConcat(lead: string, f: string, trail: string, rest: string)
    requires PlainField(f) && All(lead, IsSpace) && All(trail, IsSpace)
    ensures LazyField(DropWs(lead + (f + (trail + ("|" + rest))))) == Some((f, rest))
  {
    var t := f + (trail + ("|" + rest));
    if f == [] {
      assert t == trail + ("|" + rest);
      assert lead + t == (lead + trail) + ("|" + rest);
      assert All(lead + trail, IsSpace);
      DropWsConcat(lead + trail, "|" + rest);
      LazyFieldConcat([], [], rest);
    } else {
      assert t[0] == f[0];
      DropWsConcat(lead, t);
      LazyFieldConcat(f, trail, rest);
    }
  }

  lemma NameThenSpaces(lead: string, name: string, trail: string)
    requires PlainField(name) && All(lead, IsSpace) && All(trail, IsSpace)
    ensures Strip(RestOfLine(DropWs(lead + (name + trail)))) == name
  {
    if name == [] {
      assert lead + (name + trail) == (lead + trail) + [];
      assert All(lead + trail, IsSpace);
      DropWsConcat(lead + trail, []);
      SpanConcat([], [], NotNewline);
      StripStable([]);
    } else {
      assert (name + trail)[0] == name[0];
      DropWsConcat(lead, name + trail);
      NameThenRest(name, trail);
    }
  }

  lemma NameThenRest(name: string, trail: string)
    requires PlainField(name) && name != [] && All(trail, IsSpace)
    ensures Strip(RestOfLine(name + trail)) == name
  {
    var u := RestOfLine(trail);
    RestAfterField(name, trail);
    SpacesPrefix(trail, u);
    StripTrailing(name, u);
  }

  /** A line-feed-free text is consumed whole by `.*`. */
  lemma RestAfterField(name: string, trail: string)
    requires '\n' !in name
    ensures RestOfLine(name + trail) == name + RestOfLine(trail)
  {
    assert All(name, NotNewline) by {
      forall i | 0 <= i < |name|
        ensures NotNewline(name[i])
      {
        assert name[i] in name;
      }
    }
    SpanAppend(name, trail, NotNewline);
  }

  /** A prefix of a run of whitespace is whitespace. */
  lemma SpacesPrefix(w: string, u: string)
    requires All(w, IsSpace) && StartsWith(w, u)
    ensures All(u, IsSpace)
  {
    assert forall j :: 0 <= j < |u| ==> u[j] == w[j];
  }

  lemma {:induction false} SpanAppend(x: string, y: string, p: char -> bool)
    requires All(x, p)
    ensures Span(x + y, p).0 == x + Span(y, p).0
    decreases |x|
  {
    if x == [] {
      assert x + y == y;
    } else {
      assert (x + y)[0] == x[0];
      assert (x + y)[1..] == x[1..] + y;
      SpanAppend(x[1..], y, p);
      assert [x[0]] + (x[1..] + Span(y, p).0) == x + Span(y, p).0;
    }
  }

  /** A collector row written in its layout is matched; its fields are given
      back, and its trailing name is recovered by `strip()`. */
  lemma CollectorRowRoundTrip(leads: seq<string>, vals: seq<string>, trails: seq<string>,
                              lead1: string, fg: string, trail1: string,
                              lead2: string, bg: string, trail2: string,
                              lead3: string, name: string, trail3: string)
    requires CellsLayout(leads, vals, trails, CollectorCells)
    requires All(lead1, IsSpace) && All(trail1, IsSpace) && All(lead2, IsSpace) && All(trail2, IsSpace)
    requires All(lead3, IsSpace) && All(trail3, IsSpace)
    requires PlainField(fg) && PlainField(bg) && PlainField(name)
    ensures var m := ParseCollectorRow(CollectorLine(leads, vals, trails, lead1, fg, trail1,
                                                     lead2, bg, trail2, lead3, name, trail3));
      && m.Some? && m.value.uid == vals[0] && m.value.mah == vals[1]
      && m.value.fg == fg && m.value.bg == bg && Strip(m.value.pkg) == name
  {
    var third := lead3 + (name + trail3);
    var second := lead2 + (bg + (trail2 + ("|" + third)));
    var first := lead1 + (fg + (trail1 + ("|" + second)));
    var line := CollectorLine(leads, vals, trails, lead1, fg, trail1, lead2, bg, trail2, lead3, name, trail3);
    assert ParseCells(line, CollectorCells) == Some((vals, first)) by {
      CollectorCellClasses();
      CellsRoundTrip(leads, vals, trails, first, CollectorCells);
    }
    var f := CollectorFields(first);
    assert f.Some? && f.value.0 == fg && f.value.1 == bg && Strip(f.value.2) == name by {
      CollectorFieldsRoundTrip(lead1, fg, trail1, lead2, bg, trail2, lead3, name, trail3);
    }
    CollectorRowOf(line, vals, first);
  }

  lemma CollectorRowOf(line: string, vals: seq<string>, rest: string)
    requires ParseCells(line, CollectorCells) == Some((vals, rest))
    requires CollectorFields(rest).Some?
    ensures var f := CollectorFields(rest).value;
      ParseCollectorRow(line) == Some(CollectorMatch(vals[0], vals[1], f.0, f.1, f.2))
  {
  }

  lemma CollectorCellClasses()
    ensures forall i :: 0 <= i < |CollectorCells| ==> CellClass(CollectorCells[i])
  {
    assert CellClass(IsDigit);
    assert CellClass(IsNumChar);
  }

  lemma CollectorFieldsRoundTrip(lead1: string, fg: string, trail1: string,
                                 lead2: string, bg: string, trail2: string,
                                 lead3: string, name: string, trail3: string)
    requires All(lead1, IsSpace) && All(trail1, IsSpace) && All(lead2, IsSpace) && All(trail2, IsSpace)
    requires All(lead3, IsSpace) && All(trail3, IsSpace)
    requires PlainField(fg) && PlainField(bg) && PlainField(name)
    ensures var f := CollectorFields(lead1 + (fg + (trail1 + ("|" + (lead2 + (bg + (trail2 + ("|" + (lead3 + (name + trail3))))))))));
      f.Some? && f.value.0 == fg && f.value.1 == bg && Strip(f.value.2) == name
  {
    var third := lead3 + (name + trail3);
    var second := lead2 + (bg + (trail2 + ("|" + third)));
    PaddedFieldConcat(lead1, fg, trail1, second);
    PaddedFieldConcat(lead2, bg, trail2, third);
    NameThenSpaces(lead3, name, trail3);
    CollectorFieldsOf(lead1 + (fg + (trail1 + ("|" + second))), fg, second, bg, third);
  }

  lemma CollectorFieldsOf(s: string, fg: string, second: string, bg: string, third: string)
    requires LazyField(DropWs(s)) == Some((fg, second))
    requires LazyField(DropWs(second)) == Some((bg, third))
    ensures CollectorFields(s) == Some((fg, bg, RestOfLine(DropWs(third))))
  {
  }
}
