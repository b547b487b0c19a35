/** Which responses may be cached and for how long (middleware/cache.go), and the Cache-Control values the
    framework itself writes (context.go). */
module CacheControl {
  import opened Text
  import opened Decimal
  import opened HttpHeader

  const NO_STORE := Ascii("no-store")
  const PRIVATE := Ascii("private")
  const S_MAXAGE := Ascii("s-maxage=")
  const MAX_AGE := Ascii("max-age=")

  predicate HasPrefix(s: Bytes, p: Bytes) {
    |p| <= |s| && s[..|p|] == p
  }

  /** The regular expression `p`. */
  predicate Contains(s: Bytes, p: Bytes) {
    HasPrefix(s, p) || (s != [] && Contains(s[1..], p))
  }

  /** The submatch of the regular expression `p(\d+)`: the digits after the leftmost p that has some. */
  function FindDigits(s: Bytes, p: Bytes): (r: Option<Bytes>)
    ensures r.Some? ==> AllDigits(r.value) && r.value != []
  {
    if HasPrefix(s, p) && DigitRun(s[|p|..]) > 0 then Some(s[|p|..][..DigitRun(s[|p|..])])
    else if s == [] then None
    else FindDigits(s[1..], p)
  }

  predicate NoCacheMatch(cc: Bytes) {
    Contains(cc, NO_CACHE) || Contains(cc, NO_STORE) || Contains(cc, PRIVATE)
  }

  /** strings.Join(header.Values("Cache-Control"), ","). */
  function CacheControlOf(h: Header): Bytes {
    Join(ValuesOf(h, CACHE_CONTROL), ',' as int)
  }

  function LifetimeOf(cc: Bytes): int {
    match FindDigits(cc, S_MAXAGE)
    case Some(digits) => Atoi(digits)
    case None =>
      match FindDigits(cc, MAX_AGE)
      case Some(digits) => Atoi(digits)
      case None => 0
  }

  /** GetCacheMaxAge. */
  function GetCacheMaxAge(h: Header): int {
    var cc := CacheControlOf(h);
    if First(h, SET_COOKIE) != [] then 0
    else if cc == [] || NoCacheMatch(cc) then 0
    else
      var age := First(h, AGE);
      if age == [] then LifetimeOf(cc) else Wrap64(LifetimeOf(cc) - Atoi(age))
  }

  // ---------------------------------------------------------------------------------------------
  // Searching

  lemma PrefixBytes(s: Bytes, p: Bytes)
    requires HasPrefix(s, p)
    ensures forall c <- p :: c in s
    ensures p != [] ==> s != [] && s[0] == p[0]
  {
    assert forall c <- s[..|p|] :: c in s;
    assert p != [] ==> s[..|p|][0] == s[0];
  }

  /** The expression is found exactly if it is written somewhere. */
  lemma {:induction false} ContainsIff(s: Bytes, p: Bytes)
    ensures Contains(s, p) <==> exists before: Bytes, after: Bytes :: s == before + p + after
    decreases |s|
  {
    if HasPrefix(s, p) {
      assert s == [] + p + s[|p|..];
    } else if s != [] {
      var rest := s[1..];
      ContainsIff(rest, p);
      if before: Bytes, after: Bytes :| rest == before + p + after {
        assert s == ([s[0]] + before) + p + after;
      }
    }
    if before: Bytes, after: Bytes :| s == before + p + after {
      WrittenAt(before, p, after);
    }
  }

  lemma {:induction false} WrittenAt(before: Bytes, p: Bytes, after: Bytes)
    ensures Contains(before + p + after, p)
    decreases |before|
  {
    var s := before + p + after;
    if before == [] {
      assert s[..|p|] == p;
    } else {
      WrittenAt(before[1..], p, after);
      assert s[1..] == before[1..] + p + after;
    }
  }

  lemma {:induction false} AbsentByte(s: Bytes, p: Bytes, c: byte)
    requires c in p && c !in s
    ensures !Contains(s, p)
  {
    if HasPrefix(s, p) {
      PrefixBytes(s, p);
    }
    if s != [] {
      AbsentByte(s[1..], p, c);
    }
  }

  /** Text without the first byte of p can be skipped. */
  lemma {:induction false} SkipTo(a: Bytes, p: Bytes, b: Bytes)
    requires p != [] && p[0] !in a
    ensures FindDigits(a + b, p) == FindDigits(b, p)
  {
    if a == [] {
      assert a + b == b;
    } else {
      var s := a + b;
      assert s[0] == a[0] && s[1..] == a[1..] + b;
      if HasPrefix(s, p) {
        PrefixBytes(s, p);
      }
      SkipTo(a[1..], p, b);
    }
  }

  lemma FoundHere(p: Bytes, digits: Bytes, after: Bytes)
    requires AllDigits(digits) && digits != [] && (after != [] ==> !Digit(after[0]))
    ensures FindDigits(p + digits + after, p) == Some(digits)
  {
    var s := p + digits + after;
    DigitRunOf(digits, after);
    assert s[|p|..] == digits + after && s[..|p|] == p;
    assert (digits + after)[..|digits|] == digits;
  }

  // ---------------------------------------------------------------------------------------------
  // What Context.CacheMaxAge writes is what GetCacheMaxAge reads

  /** Context.CacheMaxAge, in whole seconds. */
  function CacheMaxAge(age: nat, sMaxAge: Option<nat>): (cc: Bytes)
    ensures cc != []
  {
    var head := PublicMaxAge() + Digits(age);
    match sMaxAge
    case None => head
    case Some(s) => head + CommaSMaxAge() + Digits(s)
  }

  function PublicMaxAge(): Bytes { Ascii("public, max-age=") }
  function CommaSMaxAge(): Bytes { Ascii(", s-maxage=") }

  function PrivateCacheMaxAge(age: nat): Bytes {
    Ascii("private, max-age=") + Digits(age)
  }

  /** The literals: where the two directives begin, and which letters do not occur. */
  lemma Literals()
    ensures PublicMaxAge() == Ascii("public, ") + MAX_AGE && CommaSMaxAge() == Ascii(", ") + S_MAXAGE
    ensures MAX_AGE != [] && S_MAXAGE != [] && MAX_AGE[0] == 'm' as int && S_MAXAGE[0] == 's' as int
    ensures 'm' as int !in Ascii("public, ") && 's' as int !in Ascii(", ") && 's' as int !in PublicMaxAge()
    ensures forall c :: c == 'o' as int || c == 'v' as int ==> c !in PublicMaxAge() && c !in CommaSMaxAge()
    ensures 'o' as int in NO_CACHE && 'o' as int in NO_STORE && 'v' as int in PRIVATE
  {
    assert NO_CACHE[1] == 'o' as int && NO_STORE[1] == 'o' as int && PRIVATE[3] == 'v' as int;
  }

  lemma CacheMaxAgeIsPublic(age: nat, sMaxAge: Option<nat>)
    ensures !NoCacheMatch(CacheMaxAge(age, sMaxAge))
  {
    Literals();
    var cc := CacheMaxAge(age, sMaxAge);
    assert forall c <- Digits(age) :: Digit(c);
    assert sMaxAge.Some? ==> forall c <- Digits(sMaxAge.value) :: Digit(c);
    AbsentByte(cc, NO_CACHE, 'o' as int);
    AbsentByte(cc, NO_STORE, 'o' as int);
    AbsentByte(cc, PRIVATE, 'v' as int);
  }

  lemma SMaxAgeFound(age: nat, n: nat)
    ensures FindDigits(CacheMaxAge(age, Some(n)), S_MAXAGE) == Some(Digits(n))
  {
    Literals();
    hide PublicMaxAge, CommaSMaxAge, Digits, Ascii;
    var before := PublicMaxAge() + Digits(age) + Ascii(", ");
    var tail := S_MAXAGE + Digits(n) + [];
    assert forall c <- Digits(age) :: Digit(c);
    assert CacheMaxAge(age, Some(n)) == before + tail;
    SkipTo(before, S_MAXAGE, tail);
    FoundHere(S_MAXAGE, Digits(n), []);
  }

  lemma OnlyMaxAgeFound(age: nat)
    ensures FindDigits(CacheMaxAge(age, None), S_MAXAGE) == None
    ensures FindDigits(CacheMaxAge(age, None), MAX_AGE) == Some(Digits(age))
  {
    Literals();
    hide PublicMaxAge, CommaSMaxAge, Digits, Ascii;
    var cc := CacheMaxAge(age, None);
    assert forall c <- Digits(age) :: Digit(c);
    assert cc + [] == cc;
    SkipTo(cc, S_MAXAGE, []);
    var tail := MAX_AGE + Digits(age) + [];
    assert cc == Ascii("public, ") + tail;
    SkipTo(Ascii("public, "), MAX_AGE, tail);
    FoundHere(MAX_AGE, Digits(age), []);
  }

  /** The lifetime read back is s-maxage when it is written, and max-age otherwise (section 4.2.1 of RFC
      9111, for a shared cache). */
  lemma CacheMaxAgeRoundTrip(age: nat, sMaxAge: Option<nat>, h: Header)
    requires age <= MAX_INT64 && (sMaxAge.Some? ==> sMaxAge.value <= MAX_INT64)
    requires CACHE_CONTROL in h && h[CACHE_CONTROL] == [CacheMaxAge(age, sMaxAge)]
    requires SET_COOKIE !in h && AGE !in h
    ensures GetCacheMaxAge(h) == sMaxAge.GetOr(age)
  {
    hide FindDigits, NoCacheMatch, Atoi, CacheMaxAge;
    CacheMaxAgeIsPublic(age, sMaxAge);
    var cc := CacheMaxAge(age, sMaxAge);
    assert CacheControlOf(h) == cc;
    match sMaxAge
    case Some(n) =>
      SMaxAgeFound(age, n);
      AtoiOfDigits(n);
    case None =>
      OnlyMaxAgeFound(age);
      AtoiOfDigits(age);
  }

  /** What Context.PrivateCacheMaxAge writes is never cached. */
  lemma PrivateIsNotCached(age: nat, h: Header)
    requires CACHE_CONTROL in h && h[CACHE_CONTROL] == [PrivateCacheMaxAge(age)]
    ensures GetCacheMaxAge(h) == 0
  {
    var cc := PrivateCacheMaxAge(age);
    assert cc[..|PRIVATE|] == PRIVATE;
  }
}
