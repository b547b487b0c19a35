/** What GetCacheMaxAge (middleware/cache.go) makes of every Cache-Control header, against what the header means
    (sections 4.2.1 and 5.2 of RFC 9111). */
module CacheDirectives {
  import opened Text
  import opened Decimal
  import opened HttpHeader
  import opened HeaderCodec
  import opened CacheControl

  const COMMA: byte := 44
  const EQUALS: byte := 61
  const QUOTE: byte := 34

  // ---------------------------------------------------------------------------------------------
  // Directive lists and how they are written

  datatype Argument = Token(text: Bytes) | Quoted(text: Bytes)

  datatype Directive = Directive(name: Bytes, argument: Option<Argument>)

  predicate IsToken(s: Bytes) {
    s != [] && forall c <- s :: TokenByte(c)
  }

  predicate Proper(d: Directive) {
    && IsToken(d.name)
    && match d.argument
       case None => true
       case Some(Token(t)) => IsToken(t)
       case Some(Quoted(q)) => QUOTE !in q
  }

  function ArgumentText(a: Argument): Bytes {
    match a
    case Token(t) => t
    case Quoted(q) => [QUOTE] + q + [QUOTE]
  }

  function DirectiveText(d: Directive): Bytes {
    match d.argument
    case None => d.name
    case Some(a) => d.name + [EQUALS] + ArgumentText(a)
  }

  /** One element of a list, with white space around it; lists may have empty elements. */
  datatype Element = Element(left: Bytes, directive: Option<Directive>, right: Bytes)

  predicate ProperElement(e: Element) {
    && (forall c <- e.left :: SpaceByte(c)) && (forall c <- e.right :: SpaceByte(c))
    && (e.directive.Some? ==> Proper(e.directive.value))
  }

  function ElementText(e: Element): Bytes {
    e.left + (if e.directive.Some? then DirectiveText(e.directive.value) else []) + e.right
  }

  function Texts(es: seq<Element>): (ts: seq<Bytes>)
    ensures |ts| == |es|
  {
    if es == [] then [] else [ElementText(es[0])] + Texts(es[1..])
  }

  /** The values of a header whose lines hold these elements. */
  function Lines(lines: seq<seq<Element>>): (vs: seq<Bytes>)
    ensures |vs| == |lines|
  {
    if lines == [] then [] else [Join(Texts(lines[0]), COMMA)] + Lines(lines[1..])
  }

  function Flat(lines: seq<seq<Element>>): seq<Element> {
    if lines == [] then [] else lines[0] + Flat(lines[1..])
  }

  function Directives(es: seq<Element>): seq<Directive> {
    if es == [] then []
    else if es[0].directive.Some? then [es[0].directive.value] + Directives(es[1..])
    else Directives(es[1..])
  }

  ghost predicate ProperLines(lines: seq<seq<Element>>) {
    forall line <- lines :: line != [] && forall e <- line :: ProperElement(e)
  }

  // ---------------------------------------------------------------------------------------------
  // How lines are joined

  lemma {:induction false} TextsConcat(a: seq<Element>, b: seq<Element>)
    ensures Texts(a + b) == Texts(a) + Texts(b)
    decreases |a|
  {
    if a == [] {
      assert a + b == b;
    } else {
      var rest := a[1..];
      assert (a + b)[1..] == rest + b;
      TextsConcat(rest, b);
    }
  }

  lemma {:induction false} JoinConcat(a: seq<Bytes>, b: seq<Bytes>)
    requires a != [] && b != []
    ensures Join(a + b, COMMA) == Join(a, COMMA) + [COMMA] + Join(b, COMMA)
    decreases |a|
  {
    var rest := a[1..];
    assert (a + b)[1..] == rest + b;
    if rest == [] {
      assert a + b == [a[0]] + b && rest + b == b;
    } else {
      JoinConcat(rest, b);
      assert Join(a, COMMA) == a[0] + [COMMA] + Join(rest, COMMA);
      assert Join(a + b, COMMA) == a[0] + [COMMA] + Join(rest + b, COMMA);
    }
  }

  /** The header values joined with commas are the elements joined with commas. */
  lemma {:induction false} LinesAreElements(lines: seq<seq<Element>>)
    requires ProperLines(lines) && lines != []
    ensures Flat(lines) != [] && Join(Lines(lines), COMMA) == Join(Texts(Flat(lines)), COMMA)
    decreases |lines|
  {
    var first, rest := lines[0], lines[1..];
    assert first in lines && forall line <- rest :: line in lines;
    if rest == [] {
      assert Flat(lines) == first + [] == first;
      assert Lines(lines) == [Join(Texts(first), COMMA)] + [];
    } else {
      LinesAreElements(rest);
      TextsConcat(first, Flat(rest));
      JoinConcat(Texts(first), Texts(Flat(rest)));
      assert Lines(lines)[1..] == Lines(rest);
    }
  }

  // ---------------------------------------------------------------------------------------------
  // Searching across separators

  /** No match goes over a byte that is neither in p nor a digit. */
  lemma {:induction false} FindAcross(a: Bytes, c: byte, b: Bytes, p: Bytes)
    requires p != [] && c !in p && !Digit(c)
    ensures FindDigits(a + [c] + b, p) == if FindDigits(a, p).Some? then FindDigits(a, p) else FindDigits(b, p)
    decreases |a|
  {
    var s := a + [c] + b;
    PrefixAcross(a, c, b, p);
    if a == [] {
      assert s[1..] == b && FindDigits(a, p) == None;
      assert !HasPrefix(s, p);
    } else {
      var rest := a[1..];
      assert s[1..] == rest + [c] + b;
      FindAcross(rest, c, b, p);
      if HasPrefix(a, p) {
        var tail := a[|p|..];
        assert s[|p|..] == tail + [c] + b;
        RunAcross(tail, c, b);
      }
    }
  }

  lemma {:induction false} PrefixAcross(a: Bytes, c: byte, b: Bytes, p: Bytes)
    requires c !in p
    ensures HasPrefix(a + [c] + b, p) <==> HasPrefix(a, p)
  {
    var s := a + [c] + b;
    if |p| <= |a| {
      assert s[..|p|] == a[..|p|];
    } else {
      assert s[|a|] == c;
      assert |p| <= |s| ==> s[..|p|][|a|] == c;
    }
  }

  lemma {:induction false} RunAcross(t: Bytes, c: byte, b: Bytes)
    requires !Digit(c)
    ensures DigitRun(t + [c] + b) == DigitRun(t)
    ensures (t + [c] + b)[..DigitRun(t)] == t[..DigitRun(t)]
    decreases |t|
  {
    var s := t + [c] + b;
    if t != [] && Digit(t[0]) {
      var rest := t[1..];
      assert s[1..] == rest + [c] + b;
      RunAcross(rest, c, b);
    }
  }

  lemma {:induction false} ContainsAcross(a: Bytes, c: byte, b: Bytes, p: Bytes)
    requires p != [] && c !in p
    ensures Contains(a + [c] + b, p) <==> Contains(a, p) || Contains(b, p)
    decreases |a|
  {
    var s := a + [c] + b;
    PrefixAcross(a, c, b, p);
    if a == [] {
      assert s[1..] == b;
    } else {
      var rest := a[1..];
      assert s[1..] == rest + [c] + b;
      ContainsAcross(rest, c, b, p);
    }
  }

  function FirstFound(texts: seq<Bytes>, p: Bytes): Option<Bytes> {
    if texts == [] then None
    else if FindDigits(texts[0], p).Some? then FindDigits(texts[0], p)
    else FirstFound(texts[1..], p)
  }

  lemma {:induction false} FindInList(texts: seq<Bytes>, p: Bytes)
    requires p != [] && COMMA !in p
    ensures FindDigits(Join(texts, COMMA), p) == FirstFound(texts, p)
    decreases |texts|
  {
    if texts == [] {
      assert FindDigits([], p) == None;
    } else if |texts| == 1 {
      assert FirstFound(texts[1..], p) == None;
    } else {
      var rest := texts[1..];
      FindInList(rest, p);
      FindAcross(texts[0], COMMA, Join(rest, COMMA), p);
    }
  }

  // ---------------------------------------------------------------------------------------------
  // What one element gives

  predicate HasSuffix(s: Bytes, p: Bytes) {
    |p| <= |s| && s[|s| - |p|..] == p
  }

  /** The digits that the expression `name=(\d+)` takes from a directive: after any name that ends with this one,
      or from inside a quoted argument. */
  function Found(d: Directive, name: Bytes): Option<Bytes> {
    match d.argument
    case None => None
    case Some(Token(t)) => if HasSuffix(d.name, name) && DigitRun(t) > 0 then Some(t[..DigitRun(t)]) else None
    case Some(Quoted(q)) => FindDigits(q, name + [EQUALS])
  }

  lemma {:induction false} NothingFound(s: Bytes, p: Bytes, c: byte)
    requires c in p && c !in s
    ensures FindDigits(s, p) == None
    decreases |s|
  {
    if HasPrefix(s, p) {
      PrefixBytes(s, p);
    }
    if s != [] {
      NothingFound(s[1..], p, c);
    }
  }

  /** The name before the equals sign matters only by its end. */
  lemma {:induction false} FoundAfterName(s: Bytes, tail: Bytes, name: Bytes)
    requires EQUALS !in s && EQUALS !in name && name != []
    ensures FindDigits(s + [EQUALS] + tail, name + [EQUALS]) ==
            if HasSuffix(s, name) && DigitRun(tail) > 0 then Some(tail[..DigitRun(tail)])
            else FindDigits(tail, name + [EQUALS])
    decreases |s|
  {
    var p, text := name + [EQUALS], s + [EQUALS] + tail;
    PrefixAtName(s, tail, name);
    if s == [] {
      assert text[1..] == tail;
    } else {
      var rest := s[1..];
      assert text[1..] == rest + [EQUALS] + tail;
      FoundAfterName(rest, tail, name);
      SuffixOfRest(s, name);
    }
  }

  lemma {:induction false} PrefixAtName(s: Bytes, tail: Bytes, name: Bytes)
    requires EQUALS !in s && EQUALS !in name
    ensures HasPrefix(s + [EQUALS] + tail, name + [EQUALS]) <==> s == name
    ensures s == name ==> (s + [EQUALS] + tail)[|name + [EQUALS]|..] == tail
    decreases |s|
  {
    var p, text := name + [EQUALS], s + [EQUALS] + tail;
    PrefixByFirst(text, p);
    if s == name {
      assert text == p + tail;
    } else if s != [] && name != [] {
      assert text[1..] == s[1..] + [EQUALS] + tail && p[1..] == name[1..] + [EQUALS];
      assert s[0] == name[0] ==> s[1..] != name[1..] by {
        assert s == [s[0]] + s[1..] && name == [name[0]] + name[1..];
      }
      PrefixAtName(s[1..], tail, name[1..]);
    } else {
      assert text[0] == if s == [] then EQUALS else s[0];
      assert p[0] == if name == [] then EQUALS else name[0];
    }
  }

  lemma {:induction false} PrefixByFirst(s: Bytes, p: Bytes)
    requires s != [] && p != []
    ensures HasPrefix(s, p) <==> s[0] == p[0] && HasPrefix(s[1..], p[1..])
  {
    assert p == [p[0]] + p[1..];
    if |p| <= |s| {
      assert s[..|p|] == [s[0]] + s[1..][..|p| - 1];
    }
  }

  lemma {:induction false} SuffixOfRest(s: Bytes, name: Bytes)
    requires s != [] && name != []
    ensures HasSuffix(s, name) <==> s == name || HasSuffix(s[1..], name)
  {
    if |name| < |s| {
      assert s[|s| - |name|..] == s[1..][|s| - 1 - |name|..];
    } else if |name| == |s| {
      assert s[0..] == s;
    }
  }

  /** A directive name as the expressions spell it: a token of lower-case letters and dashes. */
  predicate Word(name: Bytes) {
    name != [] && forall c <- name :: 97 <= c <= 122 || c == 45
  }

  lemma {:induction false} WordBytes(name: Bytes)
    requires Word(name)
    ensures var p := name + [EQUALS];
            EQUALS !in name && EQUALS in p && COMMA !in p && QUOTE !in p && !SpaceByte(p[0]) && QUOTE !in name
  {
    var p := name + [EQUALS];
    assert p[0] == name[0] && name[0] in name;
    assert p[|name|] == EQUALS;
  }

  lemma {:induction false} TokenBytes(t: Bytes)
    requires IsToken(t)
    ensures EQUALS !in t && COMMA !in t && QUOTE !in t
  {
  }

  lemma {:induction false} SpacesFindNothing(s: Bytes, name: Bytes)
    requires Word(name) && forall c <- s :: SpaceByte(c)
    ensures EQUALS !in s && FindDigits(s, name + [EQUALS]) == None
  {
    WordBytes(name);
    NothingFound(s, name + [EQUALS], EQUALS);
  }

  /** White space around a directive changes nothing. */
  lemma {:induction false} FoundInElement(e: Element, name: Bytes)
    requires ProperElement(e) && Word(name)
    ensures FindDigits(ElementText(e), name + [EQUALS]) ==
            if e.directive.Some? then Found(e.directive.value, name) else None
  {
    var p := name + [EQUALS];
    WordBytes(name);
    match e.directive
    case None =>
      assert ElementText(e) == e.left + [] + e.right;
      NothingFound(ElementText(e), p, EQUALS);
    case Some(d) =>
      assert ElementText(e) == e.left + (DirectiveText(d) + e.right);
      SkipTo(e.left, p, DirectiveText(d) + e.right);
      TokenBytes(d.name);
      match d.argument {
        case None => NothingFound(d.name + e.right, p, EQUALS);
        case Some(a) =>
          var tail := ArgumentText(a) + e.right;
          assert DirectiveText(d) + e.right == d.name + [EQUALS] + tail;
          FoundAfterName(d.name, tail, name);
          FoundInArgument(a, e.right, name);
      }
  }

  lemma {:induction false} FoundInArgument(a: Argument, right: Bytes, name: Bytes)
    requires Word(name) && forall c <- right :: SpaceByte(c)
    requires match a case Token(t) => IsToken(t) case Quoted(q) => QUOTE !in q
    ensures var tail := ArgumentText(a) + right;
            match a
            case Token(t) =>
              DigitRun(tail) == DigitRun(t) && tail[..DigitRun(t)] == t[..DigitRun(t)]
              && FindDigits(tail, name + [EQUALS]) == None
            case Quoted(q) => DigitRun(tail) == 0 && FindDigits(tail, name + [EQUALS]) == FindDigits(q, name + [EQUALS])
  {
    var p := name + [EQUALS];
    WordBytes(name);
    SpacesFindNothing(right, name);
    match a
    case Token(t) =>
      TokenBytes(t);
      NothingFound(t + right, p, EQUALS);
      if right != [] {
        assert right[0] in right;
        assert t + right == t + [right[0]] + right[1..];
        RunAcross(t, right[0], right[1..]);
      } else {
        assert t + right == t;
      }
    case Quoted(q) =>
      var tail := ArgumentText(a) + right;
      assert tail == [] + [QUOTE] + (q + [QUOTE] + right);
      FindAcross([], QUOTE, q + [QUOTE] + right, p);
      FindAcross(q, QUOTE, right, p);
      assert FindDigits([], p) == None;
  }

  /** The first directive that gives digits. */
  function FirstOf(ds: seq<Directive>, name: Bytes): Option<Bytes> {
    if ds == [] then None
    else if Found(ds[0], name).Some? then Found(ds[0], name)
    else FirstOf(ds[1..], name)
  }

  lemma {:induction false} FoundInElements(es: seq<Element>, name: Bytes)
    requires Word(name) && forall e <- es :: ProperElement(e)
    ensures FirstFound(Texts(es), name + [EQUALS]) == FirstOf(Directives(es), name)
    decreases |es|
  {
    if es != [] {
      var rest := es[1..];
      assert es[0] in es && forall e <- rest :: e in es;
      FoundInElements(rest, name);
      FoundInElement(es[0], name);
      assert Texts(es)[1..] == Texts(rest);
      if es[0].directive.Some? {
        assert Directives(es)[1..] == Directives(rest);
      }
    }
  }

  // ---------------------------------------------------------------------------------------------
  // Directives that forbid storing

  /** Some directive contains one of the three words, as the expression spells them. */
  predicate Banned(ds: seq<Directive>) {
    exists d <- ds :: NoCacheMatch(DirectiveText(d))
  }

  /** What the standard says: names are compared without regard to case. */
  predicate Forbids(d: Directive) {
    Lower(d.name) in {NO_CACHE, NO_STORE, PRIVATE}
  }

  lemma {:induction false} SpacesHoldNoWord(s: Bytes, w: Bytes)
    requires Word(w) && forall c <- s :: SpaceByte(c)
    ensures !Contains(s, w)
  {
    assert w[0] in w;
    AbsentByte(s, w, w[0]);
  }

  lemma {:induction false} ContainsBehindSpaces(left: Bytes, x: Bytes, w: Bytes)
    requires Word(w) && forall c <- left :: SpaceByte(c)
    ensures Contains(left + x, w) <==> Contains(x, w)
    decreases |left|
  {
    if left == [] {
      assert left + x == x;
    } else {
      var rest := left[1..];
      assert left[0] in left && forall c <- rest :: c in left;
      assert left + x == [] + [left[0]] + (rest + x);
      SpacesHoldNoWord([], w);
      ContainsAcross([], left[0], rest + x, w);
      ContainsBehindSpaces(rest, x, w);
    }
  }

  lemma {:induction false} ContainsInElement(e: Element, w: Bytes)
    requires Word(w) && ProperElement(e)
    ensures Contains(ElementText(e), w) <==> e.directive.Some? && Contains(DirectiveText(e.directive.value), w)
  {
    var x := if e.directive.Some? then DirectiveText(e.directive.value) else [];
    assert ElementText(e) == e.left + (x + e.right);
    ContainsBehindSpaces(e.left, x + e.right, w);
    SpacesHoldNoWord([], w);
    if e.right == [] {
      assert x + e.right == x;
    } else {
      assert e.right[0] in e.right && forall c <- e.right[1..] :: c in e.right;
      assert x + e.right == x + [e.right[0]] + e.right[1..];
      SpacesHoldNoWord(e.right[1..], w);
      ContainsAcross(x, e.right[0], e.right[1..], w);
    }
  }

  lemma {:induction false} ContainsInElements(es: seq<Element>, w: Bytes)
    requires Word(w) && forall e <- es :: ProperElement(e)
    ensures Contains(Join(Texts(es), COMMA), w) <==> exists d <- Directives(es) :: Contains(DirectiveText(d), w)
    decreases |es|
  {
    if es == [] {
      SpacesHoldNoWord([], w);
    } else {
      var e, rest := es[0], es[1..];
      assert e in es && forall f <- rest :: f in es;
      ContainsInElements(rest, w);
      ContainsInElement(e, w);
      SpacesHoldNoWord([], w);
      var x, y := ElementText(e), Join(Texts(rest), COMMA);
      assert Texts(es)[1..] == Texts(rest);
      assert Contains(Join(Texts(es), COMMA), w) <==> Contains(x, w) || Contains(y, w) by {
        if rest != [] {
          ContainsAcross(x, COMMA, y, w);
        }
      }
      hide Contains, Join, Texts, ElementText;
      if e.directive.Some? {
        var d := e.directive.value;
        assert Directives(es) == [d] + Directives(rest);
        assert forall f :: f in Directives(es) <==> f == d || f in Directives(rest);
      }
    }
  }

  lemma {:induction false} Words()
    ensures Word(NO_CACHE) && Word(NO_STORE) && Word(PRIVATE)
    ensures Word(SMaxAge()) && S_MAXAGE == SMaxAge() + [EQUALS] && Word(MaxAge()) && MAX_AGE == MaxAge() + [EQUALS]
  {
  }

  function SMaxAge(): Bytes { Ascii("s-maxage") }
  function MaxAge(): Bytes { Ascii("max-age") }

  lemma {:induction false} BannedInElements(es: seq<Element>)
    requires forall e <- es :: ProperElement(e)
    ensures NoCacheMatch(Join(Texts(es), COMMA)) <==> Banned(Directives(es))
  {
    Words();
    ContainsInElements(es, NO_CACHE);
    ContainsInElements(es, NO_STORE);
    ContainsInElements(es, PRIVATE);
    hide Contains, Join, Texts, Directives, DirectiveText;
  }

  lemma {:induction false} NotEmpty(es: seq<Element>)
    requires Directives(es) != [] && forall e <- es :: ProperElement(e)
    ensures Join(Texts(es), COMMA) != []
    decreases |es|
  {
    assert es[0] in es;
    if es[0].directive.None? {
      assert forall e <- es[1..] :: e in es;
      NotEmpty(es[1..]);
    }
  }

  // ---------------------------------------------------------------------------------------------
  // The lifetime of every list

  function Capped(n: nat): nat {
    if n <= MAX_INT64 then n else MAX_INT64
  }

  lemma {:induction false} AtoiOfNumber(s: Bytes)
    requires s != [] && AllDigits(s)
    ensures Atoi(s) == Capped(DigitsValue(s))
  {
    assert s[0] in s && s + [] == s && s[..|s|] == s;
    DigitRunOf(s, []);
  }

  /** The lifetime in seconds: the first s-maxage that is found, else the first max-age. */
  function LifetimeFound(ds: seq<Directive>): int {
    var digits := if FirstOf(ds, SMaxAge()).Some? then FirstOf(ds, SMaxAge()) else FirstOf(ds, MaxAge());
    if digits.Some? then Atoi(digits.value) else 0
  }

  lemma {:induction false} LifetimeInElements(es: seq<Element>)
    requires forall e <- es :: ProperElement(e)
    ensures LifetimeOf(Join(Texts(es), COMMA)) == LifetimeFound(Directives(es))
  {
    Words();
    WordBytes(SMaxAge());
    WordBytes(MaxAge());
    FindInList(Texts(es), S_MAXAGE);
    FindInList(Texts(es), MAX_AGE);
    FoundInElements(es, SMaxAge());
    FoundInElements(es, MaxAge());
    hide FindDigits, FirstFound, FirstOf, Join, Texts, Directives, Atoi, SMaxAge, MaxAge;
  }

  /** What GetCacheMaxAge computes, for every Cache-Control header with a directive in it, however it is spread
      over lines and padded, and for every Age. */
  lemma {:induction false} MaxAgeOfEveryList(h: Header, lines: seq<seq<Element>>)
    requires ProperLines(lines) && CACHE_CONTROL in h && h[CACHE_CONTROL] == Lines(lines)
    requires Directives(Flat(lines)) != []
    ensures var ds, age := Directives(Flat(lines)), First(h, AGE);
            GetCacheMaxAge(h) ==
            if First(h, SET_COOKIE) != [] || Banned(ds) then 0
            else Wrap64(LifetimeFound(ds) - if age == [] then 0 else Atoi(age))
  {
    assert lines != [];
    hide *;
    var es := Flat(lines);
    FlatIsProper(lines);
    LinesAreElements(lines);
    NotEmpty(es);
    BannedInElements(es);
    LifetimeInElements(es);
    LifetimeFits(Directives(es));
    MaxAgeFromText(h, Join(Texts(es), COMMA));
  }

  lemma {:induction false} MaxAgeFromText(h: Header, cc: Bytes)
    requires CACHE_CONTROL in h && Join(h[CACHE_CONTROL], COMMA) == cc != []
    requires -MAX_INT64 - 1 <= LifetimeOf(cc) <= MAX_INT64
    ensures GetCacheMaxAge(h) ==
            if First(h, SET_COOKIE) != [] || NoCacheMatch(cc) then 0
            else Wrap64(LifetimeOf(cc) - if First(h, AGE) == [] then 0 else Atoi(First(h, AGE)))
  {
    hide Join, NoCacheMatch, LifetimeOf, Atoi, Wrap64;
  }

  lemma {:induction false} LifetimeFits(ds: seq<Directive>)
    ensures -MAX_INT64 - 1 <= LifetimeFound(ds) <= MAX_INT64
  {
    hide FirstOf;
  }

  lemma {:induction false} FlatIsProper(lines: seq<seq<Element>>)
    requires ProperLines(lines)
    ensures forall e <- Flat(lines) :: ProperElement(e)
    decreases |lines|
  {
    if lines != [] {
      var rest := lines[1..];
      assert lines[0] in lines && forall line <- rest :: line in lines;
      FlatIsProper(rest);
      assert forall e <- Flat(lines) :: e in lines[0] || e in Flat(rest);
    }
  }

  // ---------------------------------------------------------------------------------------------
  // Against the standard

  /** The number a directive gives for a name in section 5.2 of RFC 9111: names are compared without regard to
      case, and the argument may be written as a token or in quotes. */
  function Takes(d: Directive, name: Bytes): Option<nat> {
    if Lower(d.name) == name && d.argument.Some? && d.argument.value.text != [] && AllDigits(d.argument.value.text)
    then Some(DigitsValue(d.argument.value.text))
    else None
  }

  /** The form in which the expression finds exactly that number. */
  predicate Plain(d: Directive, name: Bytes) {
    && d.name == name
    && d.argument.Some? && d.argument.value.Token? && d.argument.value.text != [] && AllDigits(d.argument.value.text)
  }

  lemma {:induction false} LowerWord(name: Bytes)
    requires Word(name)
    ensures Lower(name) == name
  {
    assert forall i :: 0 <= i < |name| ==> name[i] in name;
  }

  lemma {:induction false} AllDigitsRun(t: Bytes)
    requires AllDigits(t)
    ensures DigitRun(t) == |t| && t[..|t|] == t
  {
    DigitRunOf(t, []);
    assert t + [] == t;
  }

  /** Code and standard take a number from the same directive exactly when it is plain; then it is the same
      number. */
  lemma {:induction false} BothIsPlain(d: Directive, name: Bytes)
    requires Word(name) && Proper(d)
    ensures Found(d, name).Some? && Takes(d, name).Some? <==> Plain(d, name)
    ensures Plain(d, name) ==> Found(d, name) == Some(d.argument.value.text)
                               && Takes(d, name) == Some(DigitsValue(d.argument.value.text))
  {
    WordBytes(name);
    LowerWord(name);
    if d.argument.Some? && AllDigits(d.argument.value.text) {
      var t := d.argument.value.text;
      AllDigitsRun(t);
      NothingFound(t, name + [EQUALS], EQUALS);
    }
    assert |Lower(d.name)| == |d.name|;
    assert |d.name| == |name| ==> d.name[0..] == d.name;
  }

  /** The first position that satisfies p, or the length. */
  function FirstWhere(ds: seq<Directive>, p: Directive -> bool): (i: nat)
    ensures i <= |ds| && (i < |ds| ==> p(ds[i])) && forall j :: 0 <= j < i ==> !p(ds[j])
  {
    if ds == [] || p(ds[0]) then 0 else 1 + FirstWhere(ds[1..], p)
  }

  function CodeFinds(name: Bytes): Directive -> bool { (d: Directive) => Found(d, name).Some? }

  function StandardFinds(name: Bytes): Directive -> bool { (d: Directive) => Takes(d, name).Some? }

  function EitherFinds(name: Bytes): Directive -> bool {
    (d: Directive) => Found(d, name).Some? || Takes(d, name).Some?
  }

  /** Where a lifetime comes from: the position, and whether it is an s-maxage. */
  datatype Choice = Nowhere | At(shared: bool, index: nat)

  /** An s-maxage if there is one, else a max-age (section 4.2.1 of RFC 9111, for a shared cache). */
  function Choose(ds: seq<Directive>, finds: Bytes -> Directive -> bool): Choice {
    var i, j := FirstWhere(ds, finds(SMaxAge())), FirstWhere(ds, finds(MaxAge()));
    if i < |ds| then At(true, i) else if j < |ds| then At(false, j) else Nowhere
  }

  function CodeChoice(ds: seq<Directive>): Choice { Choose(ds, CodeFinds) }

  function StandardChoice(ds: seq<Directive>): Choice { Choose(ds, StandardFinds) }

  /** The first directive that either of them reads as an s-maxage is plain; if there is none, the first that
      either reads as a max-age is plain, if there is one. */
  predicate Unambiguous(ds: seq<Directive>) {
    var i, j := FirstWhere(ds, EitherFinds(SMaxAge())), FirstWhere(ds, EitherFinds(MaxAge()));
    if i < |ds| then Plain(ds[i], SMaxAge()) else j < |ds| ==> Plain(ds[j], MaxAge())
  }

  lemma {:induction false} FirstOfTwo(ds: seq<Directive>, name: Bytes)
    requires Word(name) && forall d <- ds :: Proper(d)
    ensures var i, c := FirstWhere(ds, EitherFinds(name)), FirstWhere(ds, CodeFinds(name));
            var t := FirstWhere(ds, StandardFinds(name));
            && i <= c && i <= t && (i == c || i == t)
            && (i < |ds| ==> (i == c && i == t <==> Plain(ds[i], name)))
  {
    var i, c := FirstWhere(ds, EitherFinds(name)), FirstWhere(ds, CodeFinds(name));
    var t := FirstWhere(ds, StandardFinds(name));
    assert c < |ds| ==> EitherFinds(name)(ds[c]);
    assert t < |ds| ==> EitherFinds(name)(ds[t]);
    assert i < |ds| ==> CodeFinds(name)(ds[i]) || StandardFinds(name)(ds[i]);
    if i < |ds| {
      assert ds[i] in ds;
      BothIsPlain(ds[i], name);
      assert i == c <==> CodeFinds(name)(ds[i]);
      assert i == t <==> StandardFinds(name)(ds[i]);
    }
  }

  /** The code reads the lifetime from the directive that the standard names exactly if the list is
      unambiguous. */
  lemma {:induction false} StandardChoiceIff(ds: seq<Directive>)
    requires forall d <- ds :: Proper(d)
    ensures CodeChoice(ds) == StandardChoice(ds) <==> Unambiguous(ds)
  {
    Words();
    FirstOfTwo(ds, SMaxAge());
    FirstOfTwo(ds, MaxAge());
    hide Plain, Found, Takes, SMaxAge, MaxAge;
  }

  /** The freshness lifetime of the standard, as far as an int holds it. */
  function StandardLifetime(ds: seq<Directive>): nat {
    match StandardChoice(ds)
    case Nowhere => 0
    case At(shared, i) => Capped(Takes(ds[i], if shared then SMaxAge() else MaxAge()).value)
  }

  lemma {:induction false} FirstOfWhere(ds: seq<Directive>, name: Bytes)
    ensures var i := FirstWhere(ds, CodeFinds(name));
            FirstOf(ds, name) == if i < |ds| then Found(ds[i], name) else None
    decreases |ds|
  {
    if ds != [] && Found(ds[0], name).None? {
      FirstOfWhere(ds[1..], name);
      assert !CodeFinds(name)(ds[0]);
    }
  }

  lemma {:induction false} UnambiguousLifetime(ds: seq<Directive>)
    requires (forall d <- ds :: Proper(d)) && Unambiguous(ds)
    ensures LifetimeFound(ds) == StandardLifetime(ds)
  {
    Words();
    StandardChoiceIff(ds);
    FirstOfWhere(ds, SMaxAge());
    FirstOfWhere(ds, MaxAge());
    var choice := CodeChoice(ds);
    if choice.At? {
      var d, name := ds[choice.index], if choice.shared then SMaxAge() else MaxAge();
      assert d in ds;
      assert CodeFinds(name)(d) && StandardFinds(name)(d);
      BothIsPlain(d, name);
      AtoiOfNumber(d.argument.value.text);
    }
    hide SMaxAge, MaxAge, Found, Takes, Atoi, DigitsValue, FirstOf, FirstWhere;
  }

  /** So for every unambiguous list that does not forbid storing, with or without an upstream Age, the result is
      the lifetime of the standard minus that age. */
  lemma {:induction false} LifetimeIsStandard(h: Header, lines: seq<seq<Element>>)
    requires ProperLines(lines) && CACHE_CONTROL in h && h[CACHE_CONTROL] == Lines(lines)
    requires Directives(Flat(lines)) != [] && Unambiguous(Directives(Flat(lines))) && !Banned(Directives(Flat(lines)))
    requires First(h, SET_COOKIE) == [] && AllDigits(First(h, AGE))
    ensures GetCacheMaxAge(h) == StandardLifetime(Directives(Flat(lines))) - Capped(DigitsValue(First(h, AGE)))
  {
    hide *;
    var age, ds := First(h, AGE), Directives(Flat(lines));
    MaxAgeOfEveryList(h, lines);
    FlatIsProper(lines);
    DirectivesAreProper(Flat(lines));
    UnambiguousLifetime(ds);
    LifetimeFits(ds);
    CappedFits(DigitsValue(age));
    NumberOf(age);
  }

  lemma {:induction false} CappedFits(n: nat)
    ensures 0 <= Capped(n) <= MAX_INT64
  {
  }

  lemma {:induction false} NumberOf(s: Bytes)
    requires AllDigits(s)
    ensures Capped(DigitsValue(s)) == if s == [] then 0 else Atoi(s)
  {
    if s == [] {
      assert DigitsValue(s) == 0;
    } else {
      AtoiOfNumber(s);
    }
  }

  lemma {:induction false} DirectivesAreProper(es: seq<Element>)
    requires forall e <- es :: ProperElement(e)
    ensures forall d <- Directives(es) :: Proper(d)
    decreases |es|
  {
    if es != [] {
      assert es[0] in es && forall e <- es[1..] :: e in es;
      DirectivesAreProper(es[1..]);
    }
  }

  /** Ambiguous lists are read otherwise: any directive whose name merely ends with max-age is taken for it. */
  lemma {:induction false} LongerNameIsTaken(x: Bytes, n: nat, m: nat)
    requires IsToken(x) && n <= MAX_INT64 && m <= MAX_INT64
    ensures var ds := [Directive(x + MaxAge(), Some(Token(Digits(n)))), Directive(MaxAge(), Some(Token(Digits(m))))];
            LifetimeFound(ds) == n && StandardLifetime(ds) == m && !Unambiguous(ds)
  {
    var d, e := Directive(x + MaxAge(), Some(Token(Digits(n)))), Directive(MaxAge(), Some(Token(Digits(m))));
    var ds := [d, e];
    assert |SMaxAge()| == 8 && |MaxAge()| == 7 && SMaxAge()[1] == CharByte('-') && MaxAge()[0] == CharByte('m');
    Words();
    LowerWord(MaxAge());
    AllDigitsRun(Digits(n));
    AllDigitsRun(Digits(m));
    DigitsRoundTrip(n);
    DigitsRoundTrip(m);
    hide Digits, DigitsValue, DigitRun;
    assert d.name[|x|..] == MaxAge() && d.name[|x|] == MaxAge()[0];
    assert !HasSuffix(d.name, SMaxAge()) by {
      assert d.name[|d.name| - 8..][1] == d.name[|x|];
    }
    assert e.name[0..] == e.name && HasSuffix(e.name, MaxAge());
    assert |Lower(d.name)| > 7 && |Lower(e.name)| == 7;
    assert Lower(d.name) != SMaxAge() by {
      assert Lower(d.name)[|x|] == LowerByte(d.name[|x|]) == MaxAge()[0];
    }
    hide SMaxAge, MaxAge, HasSuffix, Lower;
    assert Found(d, SMaxAge()) == None && Found(e, SMaxAge()) == None && Takes(d, SMaxAge()) == None;
    assert Takes(e, SMaxAge()) == None && Takes(d, MaxAge()) == None;
    assert Found(d, MaxAge()) == Some(Digits(n)) && Takes(e, MaxAge()) == Some(m);
    AtoiOfNumber(Digits(n));
    hide Found, Takes, Atoi;
    FirstOfPair(d, e, SMaxAge());
    FirstOfPair(d, e, MaxAge());
    FirstWherePair(d, e, StandardFinds(SMaxAge()));
    FirstWherePair(d, e, StandardFinds(MaxAge()));
    FirstWherePair(d, e, EitherFinds(SMaxAge()));
    FirstWherePair(d, e, EitherFinds(MaxAge()));
  }

  lemma {:induction false} FirstOfPair(d: Directive, e: Directive, name: Bytes)
    ensures FirstOf([d, e], name) == if Found(d, name).Some? then Found(d, name) else Found(e, name)
  {
    assert [d, e][1..] == [e] && [e][1..] == [];
    assert FirstOf([e], name) == if Found(e, name).Some? then Found(e, name) else FirstOf([], name);
  }

  lemma {:induction false} FirstWherePair(d: Directive, e: Directive, p: Directive -> bool)
    ensures FirstWhere([d, e], p) == if p(d) then 0 else if p(e) then 1 else 2
  {
    assert [d, e][1..] == [e];
    FirstWhereOne(e, p);
  }

  lemma {:induction false} FirstWhereOne(d: Directive, p: Directive -> bool)
    ensures FirstWhere([d], p) == if p(d) then 0 else 1
  {
    assert [d][1..] == [] && FirstWhere([], p) == 0;
  }

  /** And a max-age in other letters, or in quotes, is missed. */
  lemma {:induction false} OtherSpellingIsMissed(d: Directive)
    requires Proper(d) && Takes(d, MaxAge()).Some? && !Plain(d, MaxAge())
    ensures LifetimeFound([d]) == 0 && StandardLifetime([d]) == Capped(Takes(d, MaxAge()).value)
  {
    Words();
    BothIsPlain(d, MaxAge());
    assert |Lower(d.name)| == |d.name| == |MaxAge()| == 7 && |SMaxAge()| == 8;
    var t := d.argument.value.text;
    NothingFound(t, SMaxAge() + [EQUALS], EQUALS);
    assert Found(d, SMaxAge()) == None && Takes(d, SMaxAge()) == None;
    hide Found, Takes, Plain, SMaxAge, MaxAge;
    FirstWhereOne(d, StandardFinds(SMaxAge()));
    FirstWhereOne(d, StandardFinds(MaxAge()));
    assert [d][1..] == [];
    assert FirstOf([d], SMaxAge()) == FirstOf([], SMaxAge()) == None;
    assert FirstOf([d], MaxAge()) == FirstOf([], MaxAge()) == None;
  }

  /** A directive without an argument that forbids storing is noticed exactly in lower case. */
  lemma {:induction false} ForbiddingIsNoticedIff(d: Directive)
    requires Proper(d) && d.argument.None? && Forbids(d)
    ensures NoCacheMatch(DirectiveText(d)) <==> d.name == Lower(d.name)
  {
    var s, low := d.name, Lower(d.name);
    Words();
    assert NO_CACHE[3] == CharByte('c') && NO_STORE[3] == CharByte('s') && PRIVATE[3] == CharByte('v')
           && NO_CACHE[1] == CharByte('o') && NO_STORE[1] == CharByte('o');
    assert CharByte('v') !in NO_CACHE && CharByte('v') !in NO_STORE && CharByte('s') !in NO_CACHE
           && CharByte('c') !in NO_STORE && CharByte('o') !in PRIVATE;
    assert forall c: byte :: 97 <= c <= 122 && c in s ==> c in low by {
      assert forall i :: 0 <= i < |s| && 97 <= s[i] <= 122 ==> low[i] == s[i];
    }
    if low == s {
      assert s[..|s|] == s;
    }
    hide Contains, Lower;
    if low == PRIVATE {
      AbsentByte(s, NO_CACHE, CharByte('o'));
      AbsentByte(s, NO_STORE, CharByte('o'));
      SameLength(s, PRIVATE);
    } else if low == NO_CACHE {
      AbsentByte(s, PRIVATE, CharByte('v'));
      AbsentByte(s, NO_STORE, CharByte('s'));
      SameLength(s, NO_CACHE);
    } else {
      AbsentByte(s, PRIVATE, CharByte('v'));
      AbsentByte(s, NO_CACHE, CharByte('c'));
      SameLength(s, NO_STORE);
    }
  }

  lemma {:induction false} SameLength(s: Bytes, w: Bytes)
    requires |s| == |w| > 0
    ensures Contains(s, w) <==> s == w
  {
    assert s[..|w|] == s;
    ShorterHolds(s[1..], w);
  }

  lemma {:induction false} ShorterHolds(s: Bytes, w: Bytes)
    requires |s| < |w|
    ensures !Contains(s, w)
    decreases |s|
  {
    if s != [] {
      ShorterHolds(s[1..], w);
    }
  }
}
