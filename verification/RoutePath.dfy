/** Route patterns (route.go): the rewriting of the legacy spelling, and the parameter names. */
module RoutePath {
  import opened Text

  const SLASH: byte := 47
  const COLON: byte := 58
  const STAR: byte := 42
  const OPEN: byte := 123
  const CLOSE: byte := 125
  const DOLLAR: byte := 36
  const DOT: byte := 46
  const PATH: Bytes := [112, 97, 116, 104]  // "path"
  const DOTS: Bytes := [DOT, DOT, DOT]

  /** "/{$}" and "/{path...}" */
  function Root(): Bytes { [SLASH] + ([OPEN] + [DOLLAR] + [CLOSE]) }
  function CatchAll(): Bytes { [SLASH] + ([OPEN] + (PATH + DOTS) + [CLOSE]) }

  predicate IsRouteIdentByte(c: byte) {
    c == 95 || 97 <= c <= 122 || 65 <= c <= 90 || 48 <= c <= 57
  }

  /** The length of the identifier at the front. */
  function IdentRun(s: Bytes): (k: nat)
    ensures k <= |s| && (forall i :: 0 <= i < k ==> IsRouteIdentByte(s[i])) && (k < |s| ==> !IsRouteIdentByte(s[k]))
  {
    if s == [] || !IsRouteIdentByte(s[0]) then 0
    else
      assert forall i :: 0 <= i < IdentRun(s[1..]) ==> s[i + 1] == s[1..][i];
      1 + IdentRun(s[1..])
  }

  /** A parameter of the legacy spelling starts here. */
  predicate Convertible(s: Bytes) {
    s != [] && s[0] == COLON && IdentRun(s[1..]) > 0
  }

  /** The rewriting of :name at the start of a segment; `start` says whether s is at one. */
  function Convert(start: bool, s: Bytes): (r: Bytes)
    ensures s == [] <==> r == []
    decreases |s|
  {
    if s == [] then []
    else if start && Convertible(s) then
      var k := IdentRun(s[1..]);
      [OPEN] + s[1..k + 1] + [CLOSE] + Convert(false, s[k + 1..])
    else [s[0]] + Convert(s[0] == SLASH, s[1..])
  }

  predicate EndsWithStar(s: Bytes) {
    |s| >= 2 && s[|s| - 2] == SLASH && s[|s| - 1] == STAR
  }

  function Base(path: Bytes): Bytes {
    if EndsWithStar(path) then path[..|path| - 2] + CatchAll() else path
  }

  function Normalize(path: Bytes): Bytes {
    if path == [] || path == [SLASH] then Root() else Convert(true, Base(path))
  }

  /** normalizeRoutePath: an index that moves over the path, and a builder. */
  method NormalizeRoutePath(path: Bytes) returns (r: Bytes)
    ensures r == Normalize(path)
  {
    if path == [] || path == [SLASH] {
      return Root();
    }
    var p := path;
    if EndsWithStar(p) {
      p := p[..|p| - 2] + CatchAll();
    }
    if COLON !in p {
      NothingToConvert(true, p);
      return p;
    }
    r := Rewrite(p);
  }

  method Rewrite(p: Bytes) returns (r: Bytes)
    ensures r == Convert(true, p)
  {
    hide Convert, IdentRun, IsRouteIdentByte;
    r := [];
    var i := 0;
    assert p[0..] == p && r + Convert(true, p) == Convert(true, p);
    ghost var todo := Convert(true, p);
    while i < |p|
      invariant i <= |p|
      invariant todo == r + Convert(i == 0 || p[i - 1] == SLASH, p[i..])
    {
      var start := i == 0 || p[i - 1] == SLASH;
      var j := i;
      if p[i] == COLON && start {
        j := IdentEnd(p, i + 1);
      }
      if j > i + 1 {
        ConvertedAt(r, p, i, j);
        r := r + ([OPEN] + p[i + 1..j] + [CLOSE]);
        i := j;
      } else {
        CopiedAt(r, start, p, i);
        r := r + [p[i]];
        i := i + 1;
      }
    }
    EmptyAtEnd(p);
  }

  lemma EmptyAtEnd(p: Bytes)
    ensures forall start :: Convert(start, p[|p|..]) == []
  {
  }

  /** The end of the identifier that begins at i. */
  method IdentEnd(p: Bytes, i: nat) returns (j: nat)
    requires i <= |p|
    ensures j == i + IdentRun(p[i..])
  {
    j := i;
    while j < |p| && IsRouteIdentByte(p[j])
      invariant i <= j <= |p|
      invariant forall k :: i <= k < j ==> IsRouteIdentByte(p[k])
    {
      j := j + 1;
    }
    IdentRunIs(p[i..], j - i);
  }

  lemma ConvertedAt(r: Bytes, p: Bytes, i: nat, j: nat)
    requires i < |p| && p[i] == COLON && j == i + 1 + IdentRun(p[i + 1..]) && j > i + 1
    ensures p[j - 1] != SLASH
    ensures r + Convert(true, p[i..]) == (r + ([OPEN] + p[i + 1..j] + [CLOSE])) + Convert(false, p[j..])
  {
    var here := p[i..];
    assert here[1..] == p[i + 1..];
    assert here[1..j - i] == p[i + 1..j] && here[j - i..] == p[j..];
    assert IsRouteIdentByte(p[i + 1..][j - i - 2]);
    assert Convert(true, here) == ([OPEN] + p[i + 1..j] + [CLOSE]) + Convert(false, p[j..]);
    Regroup(r, [OPEN] + p[i + 1..j] + [CLOSE], Convert(false, p[j..]));
  }

  lemma CopiedAt(r: Bytes, start: bool, p: Bytes, i: nat)
    requires i < |p| && !(start && p[i] == COLON && IdentRun(p[i + 1..]) > 0)
    ensures r + Convert(start, p[i..]) == (r + [p[i]]) + Convert(p[i] == SLASH, p[i + 1..])
  {
    assert p[i..][1..] == p[i + 1..];
    assert Convert(start, p[i..]) == [p[i]] + Convert(p[i] == SLASH, p[i + 1..]);
    Regroup(r, [p[i]], Convert(p[i] == SLASH, p[i + 1..]));
  }

  lemma Regroup(a: Bytes, b: Bytes, c: Bytes)
    ensures a + (b + c) == (a + b) + c
  {
  }

  lemma {:induction false} IdentRunIs(s: Bytes, k: nat)
    requires k <= |s| && (forall i :: 0 <= i < k ==> IsRouteIdentByte(s[i])) && (k < |s| ==> !IsRouteIdentByte(s[k]))
    ensures IdentRun(s) == k
  {
    if k > 0 {
      IdentRunIs(s[1..], k - 1);
    }
  }

  lemma {:induction false} NothingToConvert(start: bool, s: Bytes)
    requires COLON !in s
    ensures Convert(start, s) == s
    decreases |s|
  {
    if s != [] { NothingToConvert(s[0] == SLASH, s[1..]); }
  }

  // ---------------------------------------------------------------------------------------------
  // Parameter names

  function CutDots(name: Bytes): Bytes {
    if |name| >= 3 && name[|name| - 3..] == DOTS then name[..|name| - 3] else name
  }

  function NameOf(name: Bytes): seq<Bytes> {
    if name == [] || name == [DOLLAR] || CutDots(name) == [] then [] else [CutDots(name)]
  }

  function ParamNames(s: Bytes): seq<Bytes>
    decreases |s|
  {
    if s == [] then []
    else if s[0] != OPEN then ParamNames(s[1..])
    else
      var end := IndexByte(s, CLOSE);
      if end == |s| then [] else NameOf(s[1..end]) + ParamNames(s[end + 1..])
  }

  method ExtractParamNames(path: Bytes) returns (names: seq<Bytes>)
    ensures names == ParamNames(path)
  {
    names := [];
    var i := 0;
    while i < |path|
      invariant i <= |path|
      invariant names + ParamNames(path[i..]) == ParamNames(path)
    {
      hide ParamNames, NameOf, IndexByte;
      if path[i] != OPEN {
        NoNameAt(path, i);
        i := i + 1;
        continue;
      }
      var end := IndexByte(path[i..], CLOSE);
      if end == |path| - i {
        Unclosed(path, i);
        return;
      }
      NameAt(names, path, i, end);
      names := AppendName(names, path[i + 1..i + end]);
      i := i + end + 1;
    }
    NoNamesAtEnd(path);
  }

  method AppendName(names: seq<Bytes>, text: Bytes) returns (names': seq<Bytes>)
    ensures names' == names + NameOf(text)
  {
    names' := names;
    if text == [] || text == [DOLLAR] {
      return;
    }
    var name := CutDots(text);
    if name != [] {
      names' := names + [name];
    }
  }

  lemma NoNamesAtEnd(path: Bytes)
    ensures ParamNames(path[|path|..]) == []
  {
  }

  lemma NoNameAt(path: Bytes, i: nat)
    requires i < |path| && path[i] != OPEN
    ensures ParamNames(path[i..]) == ParamNames(path[i + 1..])
  {
    assert path[i..][1..] == path[i + 1..];
  }

  lemma Unclosed(path: Bytes, i: nat)
    requires i < |path| && path[i] == OPEN && IndexByte(path[i..], CLOSE) == |path| - i
    ensures ParamNames(path[i..]) == []
  {
  }

  lemma NameAt(names: seq<Bytes>, path: Bytes, i: nat, end: nat)
    requires i < |path| && path[i] == OPEN && end == IndexByte(path[i..], CLOSE) && end < |path| - i
    ensures end > 0
    ensures names + ParamNames(path[i..]) == (names + NameOf(path[i + 1..i + end])) + ParamNames(path[i + end + 1..])
  {
    hide IndexByte, NameOf;
    var s := path[i..];
    assert s[0] == OPEN && s[end] == CLOSE;
    assert s[1..end] == path[i + 1..i + end] && s[end + 1..] == path[i + end + 1..];
    assert ParamNames(s) == NameOf(s[1..end]) + ParamNames(s[end + 1..]);
    hide ParamNames;
    var name, rest := NameOf(s[1..end]), ParamNames(s[end + 1..]);
    assert names + (name + rest) == (names + name) + rest;
  }

  // ---------------------------------------------------------------------------------------------
  // Normalising twice

  lemma {:induction false} ConvertCopies(start: bool, s: Bytes, after: Bytes)
    requires COLON !in s && SLASH !in s && s != []
    ensures Convert(start, s + after) == s + Convert(false, after)
    decreases |s|
  {
    var all := s + after;
    assert all[0] == s[0] && all[1..] == s[1..] + after;
    if s[1..] != [] {
      ConvertCopies(false, s[1..], after);
    } else {
      assert s == [s[0]] && s[1..] + after == after;
    }
  }

  lemma {:induction false} ConvertIdempotent(start: bool, s: Bytes)
    ensures Convert(start, Convert(start, s)) == Convert(start, s)
    decreases |s|
  {
    if s == [] {
    } else if start && Convertible(s) {
      var k := IdentRun(s[1..]);
      var piece := [OPEN] + s[1..k + 1] + [CLOSE];
      var rest := s[k + 1..];
      ConvertIdempotent(false, rest);
      var name := s[1..k + 1];
      forall c <- name ensures c != COLON && c != SLASH {
        var i :| 0 <= i < k && name[i] == c;
        assert IsRouteIdentByte(s[1..][i]);
      }
      ConvertCopies(start, piece, Convert(false, rest));
    } else {
      var rest := Convert(s[0] == SLASH, s[1..]);
      ConvertIdempotent(s[0] == SLASH, s[1..]);
      var out := [s[0]] + rest;
      assert out[1..] == rest;
      if start && s[0] == COLON {
        // the byte after the colon is copied, so there is no identifier in the output either
        assert rest != [] ==> rest[0] == s[1..][0];
        assert !Convertible(out);
      }
    }
  }

  /** The output does not end in a slash and a star unless the input does. */
  lemma {:induction false} ConvertKeepsTheEnd(start: bool, s: Bytes)
    ensures EndsWithStar(Convert(start, s)) ==> EndsWithStar(s)
    ensures Convert(start, s) == [SLASH] ==> s == [SLASH]
    ensures Convert(start, s) == [STAR] ==> s == [STAR]
    decreases |s|
  {
    if s == [] {
    } else if start && Convertible(s) {
      var k := IdentRun(s[1..]);
      var piece := [OPEN] + s[1..k + 1] + [CLOSE];
      var rest := s[k + 1..];
      var out := piece + Convert(false, rest);
      assert Convert(start, s) == out;
      ConvertKeepsTheEnd(false, rest);
      EndOfConcat(piece, Convert(false, rest));
      EndOfConcat(s[..k + 1], rest);
      assert s[..k + 1] + rest == s;
    } else {
      var rest := Convert(s[0] == SLASH, s[1..]);
      assert Convert(start, s) == [s[0]] + rest;
      ConvertKeepsTheEnd(s[0] == SLASH, s[1..]);
      EndOfConcat([s[0]], rest);
      EndOfConcat([s[0]], s[1..]);
      assert [s[0]] + s[1..] == s;
    }
  }

  lemma EndOfConcat(a: Bytes, b: Bytes)
    requires a != []
    ensures EndsWithStar(a + b) <==>
              EndsWithStar(b) || (b == [STAR] && a[|a| - 1] == SLASH) || (b == [] && EndsWithStar(a))
  {
    var s := a + b;
    if |b| >= 2 {
      assert s[|s| - 1] == b[|b| - 1] && s[|s| - 2] == b[|b| - 2];
    } else if |b| == 1 {
      assert b == [b[0]] && s[|s| - 1] == b[0] && s[|s| - 2] == a[|a| - 1];
    } else {
      assert s == a;
    }
  }

  /** Normalising is idempotent on every byte string. */
  lemma NormalizeIdempotent(path: Bytes)
    ensures Normalize(Normalize(path)) == Normalize(path)
  {
    hide Convert, Convertible;
    if path == [] || path == [SLASH] {
      NothingToConvert(true, Root());
    } else {
      var base := Base(path);
      var r := Convert(true, base);
      if EndsWithStar(path) {
        assert base[|base| - 1] == CLOSE && |base| >= 10;
      }
      assert !EndsWithStar(base) && base != [] && base != [SLASH];
      ConvertKeepsTheEnd(true, base);
      ConvertIdempotent(true, base);
    }
  }

  // ---------------------------------------------------------------------------------------------
  // Both spellings of a route

  datatype Segment = Literal(text: Bytes) | Param(name: Bytes)

  /** A letter, a digit or an underscore. */
  predicate NameByte(c: byte) {
    || c == '_' as int || '0' as int <= c <= '9' as int
    || 'a' as int <= c <= 'z' as int || 'A' as int <= c <= 'Z' as int
  }

  /** Literals that mean nothing special in either spelling (so that no colon with a name is in front), and names. */
  ghost predicate PlainSegment(s: Segment) {
    match s
    case Literal(t) =>
      && SLASH !in t && OPEN !in t && CLOSE !in t && t != [STAR]
      && !(|t| >= 2 && t[0] == COLON && NameByte(t[1]))
    case Param(n) => n != [] && forall c <- n :: NameByte(c)
  }

  lemma {:induction false} PlainLiteral(t: Bytes)
    requires PlainSegment(Literal(t))
    ensures SLASH !in t && !Convertible(t)
  {
    assert |t| >= 2 ==> t[1..][0] == t[1];
  }

  lemma {:induction false} PlainBlock(n: Bytes)
    requires PlainSegment(Param(n))
    ensures var block := [OPEN] + n + [CLOSE]; COLON !in block && SLASH !in block
  {
  }

  function Legacy(segments: seq<Segment>): Bytes {
    if segments == [] then []
    else
      (match segments[0]
       case Literal(t) => [SLASH] + t
       case Param(n) => [SLASH] + ([COLON] + n)) + Legacy(segments[1..])
  }

  function Mux(segments: seq<Segment>): Bytes {
    if segments == [] then []
    else
      (match segments[0]
       case Literal(t) => [SLASH] + t
       case Param(n) => [SLASH] + ([OPEN] + n + [CLOSE])) + Mux(segments[1..])
  }

  function NamesOf(segments: seq<Segment>): seq<Bytes> {
    if segments == [] then []
    else (if segments[0].Param? then [segments[0].name] else []) + NamesOf(segments[1..])
  }

  /** The whole path: the segments, and the catch-all of either spelling. */
  function LegacyPath(segments: seq<Segment>, catchAll: bool): Bytes {
    Legacy(segments) + if catchAll then [SLASH, STAR] else []
  }

  function MuxPath(segments: seq<Segment>, catchAll: bool): Bytes {
    Mux(segments) + if catchAll then CatchAll() else []
  }

  /** A segment boundary: the end, or a slash. */
  predicate AtBoundary(s: Bytes) {
    s == [] || s[0] == SLASH
  }

  lemma NotConvertible(t: Bytes, after: Bytes)
    requires t != [] && AtBoundary(after) && !Convertible(t)
    ensures !Convertible(t + after)
  {
    var s := t + after;
    assert s[1..] == t[1..] + after;
    if t[0] == COLON {
      if t[1..] == [] {
        assert s[1..] == after;
      } else {
        assert s[1..][0] == t[1..][0];
      }
    }
  }

  lemma CopyOne(start: bool, s: Bytes)
    requires s != [] && s[0] != SLASH && (start ==> !Convertible(s))
    ensures Convert(start, s) == [s[0]] + Convert(false, s[1..])
  {
  }

  lemma {:induction false} ConvertLiteral(start: bool, t: Bytes, after: Bytes)
    requires SLASH !in t && AtBoundary(after) && (start ==> !Convertible(t))
    ensures Convert(start, t + after) == t + Convert(start && t == [], after)
    decreases |t|
  {
    var s := t + after;
    if t == [] {
      assert s == after;
    } else {
      if start { NotConvertible(t, after); }
      assert s[0] == t[0] && s[1..] == t[1..] + after;
      assert t[0] in t;
      CopyOne(start, s);
      hide Convert, Convertible;
      ConvertLiteral(false, t[1..], after);
      assert [t[0]] + (t[1..] + Convert(false, after)) == t + Convert(false, after);
    }
  }

  /** At a boundary it does not matter whether a segment starts. */
  lemma ConvertBoundary(start: bool, after: Bytes)
    requires AtBoundary(after)
    ensures Convert(start, after) == Convert(false, after)
  {
  }

  lemma ConvertParam(n: Bytes, after: Bytes)
    requires n != [] && (forall c <- n :: IsRouteIdentByte(c)) && AtBoundary(after)
    ensures Convert(true, [COLON] + n + after) == [OPEN] + n + [CLOSE] + Convert(false, after)
  {
    var s := [COLON] + n + after;
    assert s[1..] == n + after;
    IdentRunIs(s[1..], |n|) by {
      assert forall i :: 0 <= i < |n| ==> (n + after)[i] == n[i];
      assert after != [] ==> (n + after)[|n|] == SLASH;
    }
    assert s[1..|n| + 1] == n && s[|n| + 1..] == after;
  }

  lemma ConvertSlash(start: bool, s: Bytes)
    ensures Convert(start, [SLASH] + s) == [SLASH] + Convert(true, s)
  {
    assert ([SLASH] + s)[1..] == s;
  }

  lemma BoundaryOf(segments: seq<Segment>, tail: Bytes)
    requires AtBoundary(tail)
    ensures AtBoundary(Legacy(segments) + tail) && AtBoundary(Mux(segments) + tail)
  {
    if segments == [] {
      assert Legacy(segments) + tail == tail && Mux(segments) + tail == tail;
    } else {
      assert Legacy(segments)[0] == SLASH && Mux(segments)[0] == SLASH;
    }
  }

  lemma {:induction false} ConvertLegacy(start: bool, segments: seq<Segment>, tail: Bytes)
    requires (forall s <- segments :: PlainSegment(s)) && AtBoundary(tail)
    ensures Convert(start, Legacy(segments) + tail) == Mux(segments) + Convert(false, tail)
    decreases |segments|
  {
    ConvertBoundary(start, tail);
    if segments == [] {
      assert Legacy(segments) + tail == tail;
      assert Mux(segments) + Convert(false, tail) == Convert(false, tail);
    } else {
      var rest := segments[1..];
      var after := Legacy(rest) + tail;
      assert segments[0] in segments && PlainSegment(segments[0]);
      assert forall s <- rest :: s in segments;
      BoundaryOf(rest, tail);
      ConvertLegacy(false, rest, tail);
      match segments[0]
      case Literal(t) =>
        PlainLiteral(t);
        ConvertLiteral(true, t, after);
        ConvertBoundary(t == [], after);
        LegacySegment(start, t, t, Legacy(rest), Mux(rest), tail);
      case Param(n) =>
        ConvertParam(n, after);
        LegacySegment(start, [COLON] + n, [OPEN] + n + [CLOSE], Legacy(rest), Mux(rest), tail);
    }
  }

  /** One segment, from its conversion and that of what follows it. */
  lemma LegacySegment(start: bool, body: Bytes, body': Bytes, legacy: Bytes, mux: Bytes, tail: Bytes)
    requires Convert(true, body + (legacy + tail)) == body' + Convert(false, legacy + tail)
    requires Convert(false, legacy + tail) == mux + Convert(false, tail)
    ensures Convert(start, ([SLASH] + body + legacy) + tail) == ([SLASH] + body' + mux) + Convert(false, tail)
  {
    ConvertSlash(start, body + (legacy + tail));
    hide Convert;
    assert ([SLASH] + body + legacy) + tail == [SLASH] + (body + (legacy + tail));
    assert ([SLASH] + body' + mux) + Convert(false, tail) == [SLASH] + (body' + (mux + Convert(false, tail)));
  }

  lemma {:induction false} ConvertMux(start: bool, segments: seq<Segment>, tail: Bytes)
    requires (forall s <- segments :: PlainSegment(s)) && AtBoundary(tail)
    ensures Convert(start, Mux(segments) + tail) == Mux(segments) + Convert(false, tail)
    decreases |segments|
  {
    hide PlainSegment, Convert, Convertible;
    ConvertBoundary(start, tail);
    if segments == [] {
      assert Mux(segments) + tail == tail;
      assert Mux(segments) + Convert(false, tail) == Convert(false, tail);
    } else {
      var rest := segments[1..];
      var after := Mux(rest) + tail;
      assert segments[0] in segments && PlainSegment(segments[0]);
      assert forall s <- rest :: s in segments;
      BoundaryOf(rest, tail);
      ConvertMux(false, rest, tail);
      match segments[0]
      case Literal(t) =>
        PlainLiteral(t);
        ConvertLiteral(true, t, after);
        ConvertBoundary(t == [], after);
        LegacySegment(start, t, t, Mux(rest), Mux(rest), tail);
      case Param(n) =>
        var block := [OPEN] + n + [CLOSE];
        PlainBlock(n);
        ConvertCopies(true, block, after);
        LegacySegment(start, block, block, Mux(rest), Mux(rest), tail);
    }
  }

  lemma {:induction false} NoStarAtEnd(segments: seq<Segment>)
    requires forall s <- segments :: PlainSegment(s)
    ensures !EndsWithStar(Legacy(segments)) && !EndsWithStar(Mux(segments))
    ensures Legacy(segments) != [STAR] && Mux(segments) != [STAR]
    decreases |segments|
  {
    if segments != [] {
      var rest := segments[1..];
      assert segments[0] in segments && PlainSegment(segments[0]);
      assert forall s <- rest :: s in segments;
      NoStarAtEnd(rest);
      match segments[0]
      case Literal(t) =>
        NoStarLiteral(t);
        NoStarSegment(t, Legacy(rest));
        NoStarSegment(t, Mux(rest));
      case Param(n) =>
        assert n[|n| - 1] in n;
        NoStarSegment([COLON] + n, Legacy(rest));
        NoStarSegment([OPEN] + n + [CLOSE], Mux(rest));
    }
  }

  lemma NoStarLiteral(t: Bytes)
    requires SLASH !in t
    ensures !EndsWithStar(t)
  {
    if |t| >= 2 { assert t[|t| - 2] in t; }
  }

  lemma NoStarSegment(body: Bytes, after: Bytes)
    requires !EndsWithStar(body) && body != [STAR]
    requires !EndsWithStar(after) && after != [STAR]
    ensures !EndsWithStar([SLASH] + body + after) && [SLASH] + body + after != [STAR]
  {
    EndOfConcat([SLASH] + body, after);
    EndOfConcat([SLASH], body);
    assert ([SLASH] + body + after)[0] == SLASH;
  }

  lemma {:induction false} NamesSkip(t: Bytes, s: Bytes)
    requires OPEN !in t
    ensures ParamNames(t + s) == ParamNames(s)
    decreases |t|
  {
    if t == [] {
      assert t + s == s;
    } else {
      assert (t + s)[1..] == t[1..] + s && (t + s)[0] == t[0];
      NamesSkip(t[1..], s);
    }
  }

  lemma NamesOfText(text: Bytes, s: Bytes)
    requires CLOSE !in text
    ensures ParamNames([OPEN] + text + [CLOSE] + s) == NameOf(text) + ParamNames(s)
  {
    var all := [OPEN] + text + [CLOSE] + s;
    IndexByteAt([OPEN] + text, CLOSE, s);
    assert all[1..|text| + 1] == text && all[|text| + 2..] == s;
  }

  lemma IdentIsItsName(n: Bytes)
    requires n != [] && forall c <- n :: IsRouteIdentByte(c)
    ensures CLOSE !in n && NameOf(n) == [n]
  {
    assert CutDots(n) == n by {
      if |n| >= 3 {
        assert n[|n| - 3..][0] == n[|n| - 3] && n[|n| - 3] in n;
      }
    }
    assert n[0] in n;
  }

  lemma {:induction false} NamesOfMux(segments: seq<Segment>, tail: Bytes)
    requires forall s <- segments :: PlainSegment(s)
    ensures ParamNames(Mux(segments) + tail) == NamesOf(segments) + ParamNames(tail)
    decreases |segments|
  {
    hide ParamNames, NameOf;
    if segments == [] {
      assert Mux(segments) + tail == tail;
    } else {
      var rest := segments[1..];
      assert segments[0] in segments && PlainSegment(segments[0]);
      assert forall s <- rest :: s in segments;
      NamesOfMux(rest, tail);
      match segments[0]
      case Literal(t) =>
        NamesSkip([SLASH] + t, Mux(rest) + tail);
        Regroup([SLASH] + t, Mux(rest), tail);
      case Param(n) =>
        ParamSegment(n, Mux(rest), tail);
        assert [n] + (NamesOf(rest) + ParamNames(tail)) == ([n] + NamesOf(rest)) + ParamNames(tail);
    }
  }

  lemma ParamSegment(n: Bytes, mux: Bytes, tail: Bytes)
    requires n != [] && forall c <- n :: IsRouteIdentByte(c)
    ensures ParamNames(([SLASH] + ([OPEN] + n + [CLOSE]) + mux) + tail) == [n] + ParamNames(mux + tail)
  {
    hide ParamNames, NameOf;
    IdentIsItsName(n);
    NamesOfText(n, mux + tail);
    NamesSkip([SLASH], [OPEN] + n + [CLOSE] + (mux + tail));
    assert ([SLASH] + ([OPEN] + n + [CLOSE]) + mux) + tail == [SLASH] + ([OPEN] + n + [CLOSE] + (mux + tail));
  }

  lemma NamesOfConstants()
    ensures ParamNames(CatchAll()) == [PATH] && ParamNames(Root()) == [] && ParamNames([]) == []
  {
    var text := PATH + DOTS;
    assert NameOf(text) == [PATH] && NameOf([DOLLAR]) == [] by {
      assert text[4..] == DOTS && text[..4] == PATH;
    }
    NamesOfBlock(text);
    NamesOfBlock([DOLLAR]);
  }

  lemma NamesOfBlock(text: Bytes)
    requires CLOSE !in text
    ensures ParamNames([SLASH] + ([OPEN] + text + [CLOSE])) == NameOf(text)
    ensures ParamNames([]) == []
  {
    assert ParamNames([]) == [];
    hide ParamNames, NameOf;
    NamesOfText(text, []);
    NamesSkip([SLASH], [OPEN] + text + [CLOSE]);
    assert [OPEN] + text + [CLOSE] + [] == [OPEN] + text + [CLOSE];
  }

  /** For plain literal and identifier segments with an optional catch-all, both spellings of a route are
      registered under the same pattern. */
  lemma BothSpellingsNormalizeAlike(segments: seq<Segment>, catchAll: bool)
    requires forall s <- segments :: PlainSegment(s)
    ensures Normalize(LegacyPath(segments, catchAll)) == Normalize(MuxPath(segments, catchAll))
    ensures var p := MuxPath(segments, catchAll);
            Normalize(p) == if p == [] || p == [SLASH] then Root() else p
  {
    var tail := if catchAll then CatchAll() else [];
    BaseOfLegacy(segments, catchAll);
    BaseOfMux(segments, catchAll);
    SameRoots(segments, catchAll);
    hide Base, CatchAll, Root;
    assert AtBoundary(tail) && COLON !in tail by { CatchAllIsPlain(); }
    ConvertLegacy(true, segments, tail);
    ConvertMux(true, segments, tail);
    NothingToConvert(false, tail);
    hide Convert;
  }

  /** A name ends where its letters end: the rest of its segment is copied behind the brace. */
  lemma {:induction false} RestOfSegmentIsCopied(segments: seq<Segment>, n: Bytes, rest: Bytes)
    requires (forall s <- segments :: PlainSegment(s)) && PlainSegment(Param(n))
    requires rest != [] && !NameByte(rest[0]) && SLASH !in rest
    ensures Normalize(Legacy(segments) + ([SLASH] + ([COLON] + n + rest)))
            == Mux(segments) + ([SLASH] + ([OPEN] + n + [CLOSE] + rest))
  {
    var tail := [SLASH] + ([COLON] + n + rest);
    var path := Legacy(segments) + tail;
    assert n[|n| - 1] in n;
    assert |rest| >= 2 ==> rest[|rest| - 2] in rest;
    assert path[|path| - 1] == rest[|rest| - 1];
    assert path[|path| - 2] == if |rest| >= 2 then rest[|rest| - 2] else n[|n| - 1];
    assert |path| >= 4 && !EndsWithStar(path);
    ConvertLegacy(true, segments, tail);
    ConvertSlash(false, [COLON] + n + rest);
    NameThenRest(n, rest);
    hide Convert;
  }

  lemma {:induction false} NameThenRest(n: Bytes, rest: Bytes)
    requires n != [] && (forall c <- n :: NameByte(c)) && rest != [] && !NameByte(rest[0]) && SLASH !in rest
    ensures Convert(true, [COLON] + n + rest) == [OPEN] + n + [CLOSE] + rest
  {
    var s := [COLON] + n + rest;
    assert s[1..] == n + rest;
    IdentRunIs(s[1..], |n|) by {
      forall i | 0 <= i < |n| ensures IsRouteIdentByte((n + rest)[i]) {
        assert (n + rest)[i] == n[i] && n[i] in n;
      }
      assert (n + rest)[|n|] == rest[0];
    }
    assert s[1..|n| + 1] == n && s[|n| + 1..] == rest;
    ConvertLiteral(false, rest, []);
    assert rest + [] == rest && Convert(false, []) == [];
  }

  /** What the ends of a path become: the empty path and the root match the root only, and the star everything. */
  lemma {:induction false} EndsNormalize(segments: seq<Segment>)
    requires forall s <- segments :: PlainSegment(s)
    ensures Normalize([]) == Normalize(Ascii("/")) == Ascii("/{$}")
    ensures Normalize(Legacy(segments) + Ascii("/*")) == Mux(segments) + Ascii("/{path...}")
  {
    assert Ascii("/") == [SLASH] && Ascii("/{$}") == Root() && Ascii("/*") == [SLASH, STAR];
    assert Ascii("/{path...}") == CatchAll();
    hide Ascii, Legacy, Mux, Normalize, CatchAll;
    BothSpellingsNormalizeAlike(segments, true);
    CatchAllEnds(segments);
  }

  lemma {:induction false} CatchAllEnds(segments: seq<Segment>)
    ensures MuxPath(segments, true) == Mux(segments) + CatchAll() && |MuxPath(segments, true)| > 1
    ensures LegacyPath(segments, true) == Legacy(segments) + [SLASH, STAR]
  {
  }

  /** A catch-all of any name gives that name. */
  lemma {:induction false} NameOfCatchAll(segments: seq<Segment>, n: Bytes)
    requires (forall s <- segments :: PlainSegment(s)) && PlainSegment(Param(n))
    ensures ParamNames(Mux(segments) + ([SLASH] + ([OPEN] + (n + DOTS) + [CLOSE]))) == NamesOf(segments) + [n]
  {
    var text := n + DOTS;
    assert text[|text| - 3..] == DOTS && text[..|text| - 3] == n;
    assert NameOf(text) == [n];
    NamesOfMux(segments, [SLASH] + ([OPEN] + text + [CLOSE]));
    NamesOfBlock(text);
  }

  lemma CatchAllIsPlain()
    ensures AtBoundary(CatchAll()) && COLON !in CatchAll()
  {
  }

  lemma BaseOfLegacy(segments: seq<Segment>, catchAll: bool)
    requires forall s <- segments :: PlainSegment(s)
    ensures Base(LegacyPath(segments, catchAll)) == Legacy(segments) + if catchAll then CatchAll() else []
  {
    var legacy := LegacyPath(segments, catchAll);
    NoStarAtEnd(segments);
    if catchAll {
      assert legacy[..|legacy| - 2] == Legacy(segments);
    } else {
      assert legacy == Legacy(segments) == Legacy(segments) + [];
    }
  }

  lemma BaseOfMux(segments: seq<Segment>, catchAll: bool)
    requires forall s <- segments :: PlainSegment(s)
    ensures Base(MuxPath(segments, catchAll)) == MuxPath(segments, catchAll)
  {
    var mux := MuxPath(segments, catchAll);
    NoStarAtEnd(segments);
    if catchAll {
      assert mux[|mux| - 1] == CLOSE;
    } else {
      assert mux == Mux(segments);
    }
  }

  /** The two spellings that stand for the root are the same in both. */
  lemma SameRoots(segments: seq<Segment>, catchAll: bool)
    requires forall s <- segments :: PlainSegment(s)
    ensures var legacy, mux := LegacyPath(segments, catchAll), MuxPath(segments, catchAll);
            (legacy == [] <==> mux == []) && (legacy == [SLASH] <==> mux == [SLASH])
  {
    if segments != [] {
      assert segments[0] in segments && PlainSegment(segments[0]);
      var rest := segments[1..];
      assert |Legacy(segments)| >= 1 + |Legacy(rest)| && |Mux(segments)| >= 1 + |Mux(rest)|;
      assert rest != [] ==> |Legacy(rest)| >= 1 && |Mux(rest)| >= 1;
    }
  }

  /** ... and the names taken from that pattern are exactly the parameters, in order, with "path" for the
      catch-all. */
  lemma NamesOfNormalized(segments: seq<Segment>, catchAll: bool)
    requires forall s <- segments :: PlainSegment(s)
    ensures ParamNames(Normalize(LegacyPath(segments, catchAll))) == NamesOf(segments) + if catchAll then [PATH] else []
  {
    BothSpellingsNormalizeAlike(segments, catchAll);
    NamesOfConstants();
    var mux := MuxPath(segments, catchAll);
    NamesOfMux(segments, if catchAll then CatchAll() else []);
    hide ParamNames, Normalize, LegacyPath, NamesOf, CatchAll, Root;
    if mux == [] || mux == [SLASH] {
      RootHasNoNames(mux);
    }
  }

  lemma RootHasNoNames(s: Bytes)
    requires s == [] || s == [SLASH]
    ensures ParamNames(s) == []
  {
  }
}
