/** Python string and regex primitives used by the analyser: character
    classes, spans of a class, whitespace stripping, substring search,
    `str.replace` with an empty replacement, `str.split(...)[1]`, and the
    numeric conversions `int()` and `float()` on the texts the row patterns
    capture. Strings are sequences of characters, as Python's `str`. */
module Text {
  import opened Wrappers

  /** Python's whitespace (`str.isspace`, which is also what `\s` matches in
      a `str` pattern and what `str.strip()` removes). */
  predicate IsSpace(c: char) {
    (c <= ' ' || '\U{85}' <= c) && c in Whitespace
  }

  const Whitespace: set<char> := {
    ' ', '\t', '\n', '\U{0B}', '\U{0C}', '\r', '\U{1C}', '\U{1D}', '\U{1E}', '\U{1F}',
    '\U{85}', '\U{A0}', '\U{1680}',
    '\U{2000}', '\U{2001}', '\U{2002}', '\U{2003}', '\U{2004}', '\U{2005}',
    '\U{2006}', '\U{2007}', '\U{2008}', '\U{2009}', '\U{200A}',
    '\U{2028}', '\U{2029}', '\U{202F}', '\U{205F}', '\U{3000}'
  }

  /** `\d` (ASCII digits only) */
  predicate IsDigit(c: char) {
    '0' <= c <= '9'
  }

  /** `\w` (ASCII letters, digits and underscore) */
  predicate IsWordChar(c: char) {
    'a' <= c <= 'z' || 'A' <= c <= 'Z' || IsDigit(c) || c == '_'
  }

  /** `[\d\.]` */
  predicate IsNumChar(c: char) {
    IsDigit(c) || c == '.'
  }

  /** `.`: every character but the line feed */
  predicate NotNewline(c: char) {
    c != '\n'
  }

  predicate All(s: string, p: char -> bool) {
    forall i :: 0 <= i < |s| ==> p(s[i])
  }

  lemma AllCons(c: char, a: string, p: char -> bool)
    requires p(c) && All(a, p)
    ensures All([c] + a, p)
  {
    assert forall j :: 1 <= j < |a| + 1 ==> ([c] + a)[j] == a[j - 1];
  }

  /** The longest prefix of `s` whose characters all satisfy `p`, and the rest:
      what a greedy `p+` or `p*` consumes. */
  function Span(s: string, p: char -> bool): (r: (string, string))
    ensures r.0 + r.1 == s
    ensures All(r.0, p)
    ensures r.1 == [] || !p(r.1[0])
    decreases |s|
  {
    if s == [] || !p(s[0]) then ([], s)
    else
      var ab := Span(s[1..], p);
      assert [s[0]] + ab.0 + ab.1 == s by {
        assert [s[0]] + (ab.0 + ab.1) == s;
      }
      AllCons(s[0], ab.0, p);
      ([s[0]] + ab.0, ab.1)
  }

  /** The decomposition Span computes is the only one: a run of `p` followed by
      text that does not start with `p`. */
  lemma {:induction false} SpanConcat(x: string, t: string, p: char -> bool)
    requires All(x, p)
    requires t == [] || !p(t[0])
    ensures Span(x + t, p) == (x, t)
    decreases |x|
  {
    if x == [] {
      assert x + t == t;
    } else {
      assert (x + t)[0] == x[0];
      assert (x + t)[1..] == x[1..] + t;
      SpanConcat(x[1..], t, p);
      assert [x[0]] + x[1..] == x;
    }
  }

  /** A greedy run stops at the first character outside its class. */
  lemma SpanStops(s: string, n: nat, p: char -> bool)
    requires n < |s| && !p(s[n])
    ensures |Span(s, p).0| <= n
  {
    var k := Span(s, p).0;
    forall i | 0 <= i < |k|
      ensures p(s[i])
    {
      assert s[i] == (k + Span(s, p).1)[i] == k[i];
    }
  }

  /** `\s*` followed by the rest: the text without its leading whitespace. */
  function DropWs(s: string): (r: string)
    ensures |r| <= |s| && r == s[|s| - |r|..]
    ensures r == [] || !IsSpace(r[0])
  {
    Span(s, IsSpace).1
  }

  /** The text is its leading whitespace followed by `DropWs` of it. */
  lemma DropWsSplit(s: string)
    ensures s == s[..|s| - |DropWs(s)|] + DropWs(s)
    ensures All(s[..|s| - |DropWs(s)|], IsSpace)
  {
    var w := Span(s, IsSpace);
    assert s[..|w.0|] == w.0;
  }

  /** The whitespace `DropWs` removes */
  lemma LeadingSpace(s: string) returns (w: string)
    ensures All(w, IsSpace) && s == w + DropWs(s)
  {
    DropWsSplit(s);
    w := s[..|s| - |DropWs(s)|];
  }

  lemma DropWsConcat(w: string, t: string)
    requires All(w, IsSpace)
    requires t == [] || !IsSpace(t[0])
    ensures DropWs(w + t) == t
  {
    SpanConcat(w, t, IsSpace);
  }

  /** A text that does not start with whitespace is left as it is. */
  lemma DropWsNone(s: string)
    requires s == [] || !IsSpace(s[0])
    ensures DropWs(s) == s
  {
    DropWsConcat([], s);
  }

  /** Leading whitespace does not change what DropWs leaves. */
  lemma DropWsSkip(s: string)
    requires s != []
    ensures IsSpace(s[0]) ==> DropWs(s) == DropWs(s[1..])
  {
  }

  /** When `x` holds some non-whitespace character, dropping the whitespace of
      `x + t` stops inside `x`. */
  lemma {:induction false} DropWsInside(x: string, t: string)
    requires exists i :: 0 <= i < |x| && !IsSpace(x[i])
    ensures DropWs(x + t) == DropWs(x) + t
    ensures DropWs(x) != []
    decreases |x|
  {
    assert x != [];
    assert (x + t)[0] == x[0];
    if IsSpace(x[0]) {
      var i :| 0 <= i < |x| && !IsSpace(x[i]);
      assert i > 0 && !IsSpace(x[1..][i - 1]);
      assert (x + t)[1..] == x[1..] + t;
      DropWsInside(x[1..], t);
      DropWsSkip(x + t);
      DropWsSkip(x);
    } else {
      DropWsConcat([], x + t);
      DropWsConcat([], x);
    }
  }

  /** Trailing whitespace removed (the right half of `str.strip()`). */
  function DropWsEnd(s: string): (r: string)
    ensures |r| <= |s| && r == s[..|r|]
    ensures All(s[|r|..], IsSpace)
    ensures r == [] || !IsSpace(r[|r| - 1])
    decreases |s|
  {
    if s != [] && IsSpace(s[|s| - 1]) then
      var r := DropWsEnd(s[..|s| - 1]);
      DropWsEndStep(s, r);
      r
    else s
  }

  lemma DropWsEndStep(s: string, r: string)
    requires s != [] && IsSpace(s[|s| - 1])
    requires |r| <= |s| - 1 && r == s[..|s| - 1][..|r|] && All(s[..|s| - 1][|r|..], IsSpace)
    ensures r == s[..|r|] && All(s[|r|..], IsSpace)
  {
    var t := s[..|s| - 1];
    AllSnoc(t[|r|..], s[|s| - 1], IsSpace);
    assert s[|r|..] == t[|r|..] + [s[|s| - 1]];
  }

  lemma {:induction false} DropWsEndConcat(x: string, w: string)
    requires All(w, IsSpace)
    requires x == [] || !IsSpace(x[|x| - 1])
    ensures DropWsEnd(x + w) == x
    decreases |w|
  {
    if w == [] {
      assert x + w == x;
    } else {
      assert (x + w)[..|x + w| - 1] == x + w[..|w| - 1];
      DropWsEndConcat(x, w[..|w| - 1]);
    }
  }

  predicate OccursAt(s: string, p: string, i: nat) {
    i + |p| <= |s| && s[i..i + |p|] == p
  }

  predicate StartsWith(s: string, p: string) {
    OccursAt(s, p, 0)
  }

  /** Python's `p in s` */
  predicate Contains(s: string, p: string) {
    exists i: nat :: i <= |s| && OccursAt(s, p, i)
  }

  /** `r` occurs in `s` with only whitespace before and after it. */
  ghost predicate PaddedBy(s: string, r: string) {
    exists i: nat :: OccursAt(s, r, i) && All(s[..i], IsSpace) && All(s[i + |r|..], IsSpace)
  }

  /** Python's `str.strip()`: `s` without its leading and trailing whitespace. */
  function Strip(s: string): (r: string)
    ensures r == [] || (!IsSpace(r[0]) && !IsSpace(r[|r| - 1]))
    ensures PaddedBy(s, r)
  {
    var d := DropWs(s);
    var r := DropWsEnd(d);
    StripSplit(s, d, r);
    r
  }

  lemma StripSplit(s: string, d: string, r: string)
    requires |d| <= |s| && d == s[|s| - |d|..] && All(s[..|s| - |d|], IsSpace)
    requires d == [] || !IsSpace(d[0])
    requires |r| <= |d| && r == d[..|r|] && All(d[|r|..], IsSpace)
    requires r == [] || !IsSpace(r[|r| - 1])
    ensures r == [] || (!IsSpace(r[0]) && !IsSpace(r[|r| - 1]))
    ensures PaddedBy(s, r)
  {
    var i := |s| - |d|;
    assert s[i..i + |r|] == r;
    assert s[i + |r|..] == d[|r|..];
    assert OccursAt(s, r, i) && All(s[..i], IsSpace) && All(s[i + |r|..], IsSpace);
  }

  lemma AllSnoc(a: string, c: char, p: char -> bool)
    requires All(a, p) && p(c)
    ensures All(a + [c], p)
  {
    assert forall j :: 0 <= j < |a| ==> (a + [c])[j] == a[j];
  }

  lemma AllConcat(a: string, b: string, p: char -> bool)
    requires All(a, p) && All(b, p)
    ensures All(a + b, p)
  {
    forall j | 0 <= j < |a + b|
      ensures p((a + b)[j])
    {
      if j < |a| {
        assert (a + b)[j] == a[j];
      } else {
        assert (a + b)[j] == b[j - |a|];
      }
    }
  }

  lemma AllInfix(s: string, r: string, i: nat, p: char -> bool)
    requires OccursAt(s, r, i) && All(s, p)
    ensures All(r, p)
  {
    assert forall j :: 0 <= j < |r| ==> r[j] == s[i + j];
  }

  /** Stripping a padded text gives the text back. */
  lemma StripPadded(w1: string, x: string, w2: string)
    requires All(w1, IsSpace) && All(w2, IsSpace)
    requires x == [] || (!IsSpace(x[0]) && !IsSpace(x[|x| - 1]))
    ensures Strip(w1 + x + w2) == x
  {
    assert w1 + x + w2 == w1 + (x + w2);
    if x == [] {
      assert x + w2 == w2;
      assert All(w1 + w2, IsSpace);
      DropWsConcat(w1 + w2, []);
      assert w1 + w2 + [] == w1 + w2;
      DropWsEndConcat([], []);
    } else {
      assert (x + w2)[0] == x[0];
      DropWsConcat(w1, x + w2);
      DropWsEndConcat(x, w2);
    }
  }

  /** Stripping a text followed by whitespace gives the text back. */
  lemma StripTrailing(x: string, w: string)
    requires All(w, IsSpace)
    requires x != [] && !IsSpace(x[0]) && !IsSpace(x[|x| - 1])
    ensures Strip(x + w) == x
  {
    assert (x + w)[0] == x[0];
    DropWsNone(x + w);
    DropWsEndConcat(x, w);
  }

  /** Stripping a text that has no surrounding whitespace changes nothing. */
  lemma StripStable(x: string)
    requires x == [] || (!IsSpace(x[0]) && !IsSpace(x[|x| - 1]))
    ensures Strip(x) == x
  {
    StripPadded([], x, []);
    assert [] + x + [] == x;
  }

  lemma OccursShift(s: string, p: string, k: nat)
    requires s != []
    ensures OccursAt(s[1..], p, k) <==> OccursAt(s, p, k + 1)
  {
    if k + 1 + |p| <= |s| {
      assert s[1..][k..k + |p|] == s[k + 1..k + 1 + |p|];
    }
  }

  lemma ContainsTail(s: string, p: string)
    requires s != []
    ensures Contains(s, p) <==> StartsWith(s, p) || Contains(s[1..], p)
  {
    if Contains(s, p) && !StartsWith(s, p) {
      var i: nat :| i <= |s| && OccursAt(s, p, i);
      OccursShift(s, p, i - 1);
    }
    if Contains(s[1..], p) {
      var i: nat :| i <= |s[1..]| && OccursAt(s[1..], p, i);
      OccursShift(s, p, i);
    }
  }

  /** `p` does not occur in `s` at any position before `n` */
  ghost predicate NoneBefore(s: string, p: string, n: nat) {
    forall i: nat :: i < n ==> !OccursAt(s, p, i)
  }

  lemma OccursShiftAll(s: string, p: string)
    requires s != []
    ensures forall j: nat :: OccursAt(s[1..], p, j) ==> OccursAt(s, p, j + 1)
    ensures forall j: nat :: 0 < j && OccursAt(s, p, j) ==> OccursAt(s[1..], p, j - 1)
  {
    forall j: nat | OccursAt(s[1..], p, j) ensures OccursAt(s, p, j + 1) {
      OccursShift(s, p, j);
    }
    forall j: nat | 0 < j && OccursAt(s, p, j) ensures OccursAt(s[1..], p, j - 1) {
      OccursShift(s, p, j - 1);
    }
  }

  /** Python's `s.find(p)`, as an Option: the leftmost occurrence. */
  function IndexOf(s: string, p: string): (r: Option<nat>)
    ensures r.Some? ==> OccursAt(s, p, r.value)
    ensures r.Some? ==> forall j: nat :: j < r.value ==> !OccursAt(s, p, j)
    ensures r.None? <==> !Contains(s, p)
    decreases |s|
  {
    if StartsWith(s, p) then Some(0)
    else if s == [] then None
    else
      ContainsTail(s, p);
      OccursShiftAll(s, p);
      match IndexOf(s[1..], p)
      case Some(k) => Some(k + 1)
      case None => None
  }

  /** Python's `s.replace(p, "")`: every non-overlapping occurrence of `p`,
      scanning left to right, removed. */
  function RemoveAll(s: string, p: string): (r: string)
    requires p != []
    ensures |r| <= |s|
    ensures !Contains(s, p) ==> r == s
    decreases |s|
  {
    if StartsWith(s, p) then RemoveAll(s[|p|..], p)
    else if s == [] then []
    else
      ContainsTail(s, p);
      [s[0]] + RemoveAll(s[1..], p)
  }

  /** A marker text followed by a marker-free payload is reduced to the payload. */
  lemma RemoveAllLeading(p: string, x: string)
    requires p != [] && !Contains(x, p)
    ensures RemoveAll(p + x, p) == x
  {
    assert StartsWith(p + x, p);
    assert (p + x)[|p|..] == x;
  }

  /** `replace(p, "")` keeps the text before the first `p`, drops that `p`,
      and goes on after it: with the unchanged case of `RemoveAll`'s
      contract this fixes the result on every input. */
  lemma {:induction false} RemoveAllFind(s: string, p: string)
    requires p != [] && IndexOf(s, p).Some?
    ensures var i := IndexOf(s, p).value;
      i + |p| <= |s| && RemoveAll(s, p) == s[..i] + RemoveAll(s[i + |p|..], p)
  {
    var i := IndexOf(s, p).value;
    FirstMatchEarly(s, p, i);
    RemoveAllAt(s, p, i);
  }

  /** No occurrence of `p` starts at any of the first `n` positions of `s`. */
  predicate NoEarlyMatch(s: string, p: string, n: nat)
    decreases n
  {
    n == 0 || (s != [] && !StartsWith(s, p) && NoEarlyMatch(s[1..], p, n - 1))
  }

  lemma {:induction false} FirstMatchEarly(s: string, p: string, i: nat)
    requires p != [] && IndexOf(s, p) == Some(i)
    ensures OccursAt(s, p, i) && NoEarlyMatch(s, p, i)
    decreases i
  {
    if i > 0 {
      IndexOfStep(s, p);
      FirstMatchEarly(s[1..], p, i - 1);
      OccursShift(s, p, i - 1);
    }
  }

  lemma IndexOfStep(s: string, p: string)
    requires p != [] && IndexOf(s, p).Some? && !StartsWith(s, p)
    ensures s != [] && IndexOf(s[1..], p).Some? && IndexOf(s, p).value == IndexOf(s[1..], p).value + 1
  {
  }

  /** `RemoveAll(s, p)` splits around an occurrence of `p` at `i`. */
  predicate SplitsAt(s: string, p: string, i: nat)
    requires p != [] && i + |p| <= |s|
  {
    RemoveAll(s, p) == s[..i] + RemoveAll(s[i + |p|..], p)
  }

  lemma {:induction false} RemoveAllAt(s: string, p: string, i: nat)
    requires p != [] && OccursAt(s, p, i) && NoEarlyMatch(s, p, i)
    ensures SplitsAt(s, p, i)
    decreases i
  {
    if i == 0 {
      assert s[..0] == [] && s[0 + |p|..] == s[|p|..];
    } else {
      OccursShift(s, p, i - 1);
      RemoveAllAt(s[1..], p, i - 1);
      RemoveAllShift(s, p, i);
    }
  }

  lemma RemoveAllShift(s: string, p: string, i: nat)
    requires p != [] && s != [] && !StartsWith(s, p) && 1 <= i && i + |p| <= |s|
    requires SplitsAt(s[1..], p, i - 1)
    ensures SplitsAt(s, p, i)
  {
    RemoveAllStep(s, p);
    assert s[1..][i - 1 + |p|..] == s[i + |p|..];
    HeadPrefix(s, i);
    Regroup(RemoveAll(s, p), RemoveAll(s[1..], p), s[1..][..i - 1], RemoveAll(s[i + |p|..], p), s[0], s[..i]);
  }

  lemma RemoveAllStep(s: string, p: string)
    requires p != [] && s != [] && !StartsWith(s, p)
    ensures RemoveAll(s, p) == [s[0]] + RemoveAll(s[1..], p)
  {
  }

  lemma HeadPrefix(s: string, i: nat)
    requires 1 <= i <= |s|
    ensures [s[0]] + s[1..][..i - 1] == s[..i]
  {
    assert forall k :: 0 <= k < i ==> ([s[0]] + s[1..][..i - 1])[k] == s[..i][k];
  }

  lemma Regroup(x: string, y: string, a: string, b: string, c: char, h: string)
    requires x == [c] + y && y == a + b && h == [c] + a
    ensures x == h + b
  {
    assert [c] + (a + b) == ([c] + a) + b;
  }

  /** A marker in the middle of the text is removed too. */
  lemma RemoveAllExample()
    ensures RemoveAll("aXb", "X") == "ab"
  {
    assert "aXb"[0..1] == "a" && "aXb"[1..] == "Xb";
    assert "Xb"[0..1] == "X" && "Xb"[1..] == "b";
    assert "b"[0..1] == "b" && "b"[1..] == [];
  }

  lemma OccursInPrefix(t: string, p: string, j: nat, k: nat)
    requires j <= |t| && OccursAt(t[..j], p, k)
    ensures OccursAt(t, p, k)
  {
    assert t[k..k + |p|] == t[..j][k..k + |p|];
  }

  lemma OccursFollowed(s: string, p: string, i: nat, piece: string)
    requires OccursAt(s, p, i)
    requires StartsWith(s[i + |p|..], piece)
    ensures OccursAt(s, p + piece, i)
  {
    assert s[i..i + |p| + |piece|] == s[i..i + |p|] + s[i + |p|..][..|piece|];
  }

  /** `piece` is the text after the first `sep` of `s`, up to the next
      `sep` or the end: the second element of `s.split(sep)`. */
  ghost predicate IsSecondPiece(s: string, sep: string, piece: string) {
    && IndexOf(s, sep).Some?
    && var after := s[IndexOf(s, sep).value + |sep|..];
    && StartsWith(after, piece)
    && NoneBefore(after, sep, |piece|)
    && (|piece| == |after| || OccursAt(after, sep, |piece|))
  }

  /** Python's `s.split(sep)[1]`; None where Python raises IndexError because
      `sep` does not occur. */
  function SecondPiece(s: string, sep: string): (r: Option<string>)
    requires sep != []
    ensures r.Some? <==> Contains(s, sep)
    ensures r.Some? ==> !Contains(r.value, sep) && Contains(s, sep + r.value)
    ensures r.Some? ==> IsSecondPiece(s, sep, r.value)
  {
    match IndexOf(s, sep)
    case None => None
    case Some(i) =>
      var after := s[i + |sep|..];
      match IndexOf(after, sep)
      case None =>
        PieceToEnd(s, sep, i);
        OccursFollowed(s, sep, i, after);
        Some(after)
      case Some(j) =>
        PieceToSep(s, sep, i, j);
        OccursFollowed(s, sep, i, after[..j]);
        Some(after[..j])
  }

  /** With no further `sep`, the piece runs to the end of the text. */
  lemma PieceToEnd(s: string, sep: string, i: nat)
    requires sep != [] && IndexOf(s, sep) == Some(i) && !Contains(s[i + |sep|..], sep)
    ensures IsSecondPiece(s, sep, s[i + |sep|..])
  {
    var after := s[i + |sep|..];
    assert after[0..|after|] == after;
  }

  /** Otherwise it stops before the next `sep`, and holds none. */
  lemma PieceToSep(s: string, sep: string, i: nat, j: nat)
    requires sep != [] && IndexOf(s, sep) == Some(i) && IndexOf(s[i + |sep|..], sep) == Some(j)
    ensures var after := s[i + |sep|..];
      !Contains(after[..j], sep) && IsSecondPiece(s, sep, after[..j])
  {
    var after := s[i + |sep|..];
    if Contains(after[..j], sep) {
      var k: nat :| k <= |after[..j]| && OccursAt(after[..j], sep, k);
      OccursInPrefix(after, sep, j, k);
    }
    assert after[0..j] == after[..j];
  }

  /** No later character of `p` repeats its first one, so two occurrences of
      `p` cannot overlap (true of `time:`). */
  predicate HeadNotRepeated(p: string) {
    p != [] && forall j :: 0 < j < |p| ==> p[j] != p[0]
  }

  /** Before a separator whose head does not repeat, preceded by text
      without it, nothing of it occurs: its first occurrence is there. */
  lemma FirstOccurrence(a: string, sep: string, z: string)
    requires HeadNotRepeated(sep) && !Contains(a, sep)
    ensures IndexOf(a + sep + z, sep) == Some(|a|)
  {
    var s := a + sep + z;
    assert s[|a|..|a| + |sep|] == sep;
    assert OccursAt(s, sep, |a|);
    forall i: nat | i < |a|
      ensures !OccursAt(s, sep, i)
    {
      if i + |sep| <= |a| {
        assert a[i..i + |sep|] == s[i..i + |sep|];
        assert !OccursAt(a, sep, i);
      } else if i + |sep| <= |s| {
        assert s[i..i + |sep|][|a| - i] == s[|a|] == sep[0] != sep[|a| - i];
      }
    }
    assert IndexOf(s, sep).Some?;
  }

  /** Two texts without `p` joined give a text without `p` when the second
      starts with a character `p` has only at its head. */
  lemma NotContainsConcat(a: string, b: string, p: string)
    requires p != [] && !Contains(a, p) && !Contains(b, p)
    requires b != [] && forall j :: 0 < j < |p| ==> p[j] != b[0]
    ensures !Contains(a + b, p)
  {
    var s := a + b;
    forall i: nat | i <= |s|
      ensures !OccursAt(s, p, i)
    {
      if i + |p| <= |a| {
        assert a[i..i + |p|] == s[i..i + |p|];
        assert !OccursAt(a, p, i);
      } else if |a| <= i && i + |p| <= |s| {
        assert b[i - |a|..i - |a| + |p|] == s[i..i + |p|];
        assert !OccursAt(b, p, i - |a|);
      } else if i + |p| <= |s| {
        assert s[i..i + |p|][|a| - i] == s[|a|] == b[0] != p[|a| - i];
      }
    }
  }

  /** `(a + sep + x + z).split(sep)[1]` is `x` when `a` and `x` hold no
      `sep` and `z` is empty or starts the next piece. */
  lemma SecondPieceOf(a: string, sep: string, x: string, z: string)
    requires HeadNotRepeated(sep) && !Contains(a, sep) && !Contains(x, sep)
    requires z == [] || StartsWith(z, sep)
    ensures SecondPiece(a + sep + x + z, sep) == Some(x)
  {
    var s := a + sep + x + z;
    assert s == a + sep + (x + z);
    FirstOccurrence(a, sep, x + z);
    assert s[|a| + |sep|..] == x + z;
    if z == [] {
      assert x + z == x;
      assert IndexOf(x, sep).None?;
    } else {
      assert z == sep + z[|sep|..];
      assert x + z == x + sep + z[|sep|..];
      FirstOccurrence(x, sep, z[|sep|..]);
      assert (x + z)[..|x|] == x;
    }
  }

  /** `"a time: b time: c".split("time:")[1]` is `" b "`. */
  lemma SecondPieceExample()
    ensures SecondPiece("a time: b time: c", "time:") == Some(" b ")
  {
    assert "a time: b time: c" == "a " + "time:" + " b " + "time: c";
    SecondPieceOf("a ", "time:", " b ", "time: c");
  }

  /** The value of a digit string, most significant digit first. */
  function DigitsValue(s: string): nat
    requires All(s, IsDigit)
    decreases |s|
  {
    if s == [] then 0
    else DigitsValue(s[..|s| - 1]) * 10 + (s[|s| - 1] as int - '0' as int)
  }

  function Pow10(n: nat): (r: nat)
    ensures r >= 1
  {
    if n == 0 then 1 else 10 * Pow10(n - 1)
  }

  /** Python's `int(s)` on a digit string; None where it raises ValueError. */
  function ParseNat(s: string): (r: Option<nat>)
    ensures r.Some? <==> s != [] && All(s, IsDigit)
  {
    if s != [] && All(s, IsDigit) then Some(DigitsValue(s)) else None
  }

  /** The texts Python's `float()` reads as a plain decimal: digits with at
      most one point and at least one digit. */
  predicate IsPlainDecimal(s: string) {
    && All(s, IsNumChar)
    && (exists i :: 0 <= i < |s| && IsDigit(s[i]))
    && (forall i, j :: 0 <= i < j < |s| && s[i] == '.' ==> s[j] != '.')
  }

  /** The value of the decimal with integer digits `a` and fraction digits `f` */
  function DecimalOf(a: string, f: string): real
    requires All(a, IsDigit) && All(f, IsDigit)
  {
    DigitsValue(a) as real + DigitsValue(f) as real / Pow10(|f|) as real
  }

  /** Python's `float(s)` on a plain decimal, exactly (the rounding to a binary
      float is not modelled); None where it raises ValueError. */
  function ParseDecimal(s: string): (r: Option<real>)
    ensures r.Some? ==> r.value >= 0.0
  {
    var (a, b) := Span(s, IsDigit);
    if b == [] then
      if a == [] then None else Some(DigitsValue(a) as real)
    else if b[0] == '.' && All(b[1..], IsDigit) && (a != [] || |b| > 1) then
      Some(DecimalOf(a, b[1..]))
    else None
  }

  lemma PlainDecimalDigitsThenFraction(a: string, c: string)
    requires All(a, IsDigit) && All(c, IsDigit) && (a != [] || c != [])
    ensures IsPlainDecimal(a + ['.'] + c)
  {
    var s := a + ['.'] + c;
    assert forall i :: 0 <= i < |s| && i != |a| ==> IsDigit(s[i]) by {
      assert forall i :: |a| < i < |s| ==> s[i] == c[i - |a| - 1];
    }
    if a != [] { assert IsDigit(s[0]); } else { assert IsDigit(s[1]); }
  }

  lemma PlainDecimalSplit(s: string, a: string, b: string)
    requires s == a + b && All(a, IsDigit) && b != [] && !IsDigit(b[0]) && IsPlainDecimal(s)
    ensures b[0] == '.' && All(b[1..], IsDigit) && (a != [] || |b| > 1)
  {
    assert s[|a|] == b[0];
    forall k | 0 <= k < |b[1..]| ensures IsDigit(b[1..][k]) {
      assert s[|a| + 1 + k] == b[1..][k];
    }
    var k :| 0 <= k < |s| && IsDigit(s[k]);
    assert k != |a|;
  }

  /** `float()` succeeds on exactly the plain decimals. */
  lemma ParseDecimalAccepts(s: string)
    ensures ParseDecimal(s).Some? <==> IsPlainDecimal(s)
  {
    var (a, b) := Span(s, IsDigit);
    if b == [] {
      assert s == a;
      if a != [] {
        assert IsDigit(s[0]);
      }
    } else {
      if b[0] == '.' && All(b[1..], IsDigit) && (a != [] || |b| > 1) {
        assert b == ['.'] + b[1..];
        assert s == a + ['.'] + b[1..];
        PlainDecimalDigitsThenFraction(a, b[1..]);
      }
      if IsPlainDecimal(s) {
        PlainDecimalSplit(s, a, b);
      }
    }
  }

  /** A digit string reads as the same number under `int()` and `float()`. */
  lemma DecimalOfDigits(s: string)
    requires s != [] && All(s, IsDigit)
    ensures ParseDecimal(s) == Some(DigitsValue(s) as real)
  {
    SpanConcat(s, [], IsDigit);
    assert s + [] == s;
  }

  /** Digits appended on the right shift the value left by their count. */
  lemma {:induction false} DigitsValueConcat(a: string, c: string)
    requires All(a, IsDigit) && All(c, IsDigit)
    ensures All(a + c, IsDigit)
    ensures DigitsValue(a + c) == DigitsValue(a) * Pow10(|c|) + DigitsValue(c)
    decreases |c|
  {
    AllConcat(a, c, IsDigit);
    if c == [] {
      assert a + c == a;
    } else {
      var c' := c[..|c| - 1];
      assert All(c', IsDigit);
      DigitsValueConcat(a, c');
      assert (a + c)[..|a + c| - 1] == a + c';
      assert (a + c)[|a + c| - 1] == c[|c| - 1];
      var x, p, y := DigitsValue(a), Pow10(|c'|), DigitsValue(c');
      var d := c[|c| - 1] as int - '0' as int;
      assert DigitsValue(a + c) == (x * p + y) * 10 + d;
      assert DigitsValue(c) == y * 10 + d;
      assert Pow10(|c|) == 10 * p;
      ShiftDigit(x, p, y, d);
    }
  }

  lemma ShiftDigit(x: int, p: int, y: int, d: int)
    ensures (x * p + y) * 10 + d == x * (10 * p) + (y * 10 + d)
  {
  }

  /** The parse of `a + "." + c`: integer part plus scaled fraction */
  lemma DecimalParts(a: string, c: string)
    requires All(a, IsDigit) && All(c, IsDigit) && (a != [] || c != [])
    ensures ParseDecimal(a + "." + c) == Some(DecimalOf(a, c))
  {
    var b := ['.'] + c;
    var s := a + "." + c;
    assert s == a + b;
    SpanConcat(a, b, IsDigit);
    assert Span(s, IsDigit) == (a, b);
    assert b != [] && b[0] == '.' && b[1..] == c && |b| - 1 == |c|;
    assert All(b[1..], IsDigit) && (a != [] || |b| > 1);
  }

  lemma ScaledSum(x: nat, y: nat, p: nat, z: nat)
    requires p >= 1 && z == x * p + y
    ensures z as real / p as real == x as real + y as real / p as real
  {
    var q := p as real;
    assert z as real == x as real * q + y as real;
    assert (x as real + y as real / q) * q == x as real * q + y as real;
  }

  /** `float(a + "." + c)` is the digits `a + c` read as an integer, scaled
      down by one power of ten per fractional digit. */
  lemma DecimalValue(a: string, c: string)
    requires All(a, IsDigit) && All(c, IsDigit) && (a != [] || c != [])
    ensures All(a + c, IsDigit)
    ensures ParseDecimal(a + "." + c) == Some(DigitsValue(a + c) as real / Pow10(|c|) as real)
  {
    DecimalParts(a, c);
    AllConcat(a, c, IsDigit);
    assert DecimalOf(a, c) == DigitsValue(a + c) as real / Pow10(|c|) as real by {
      DigitsValueConcat(a, c);
      ScaledSum(DigitsValue(a), DigitsValue(c), Pow10(|c|), DigitsValue(a + c));
    }
  }

  /** Integer digits `12` with fraction digits `5` make 12.5. */
  lemma TwelveAndAHalf()
    ensures DecimalOf("12", "5") == 12.5
  {
    assert "12"[..1] == "1";
    assert "5"[..0] == [];
  }

  /** `float("12.5")` is 12.5. */
  lemma DecimalExample()
    ensures ParseDecimal("12.5") == Some(12.5)
  {
    assert "12.5" == "12" + "." + "5";
    DecimalParts("12", "5");
    TwelveAndAHalf();
  }
}
