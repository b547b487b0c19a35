/** Entity tags: how they are compared (fresh.go) and generated (middleware/helper.go), and when a copy is
    still fresh. */
module EntityTags {
  import opened Text
  import opened HeaderCodec
  import opened HttpHeader

  const COMMA: byte := 44
  const QUOTE: byte := 34
  const DASH: byte := 45
  const WEAK: Bytes := [87, 47]
  const STAR: Bytes := [42]

  // ---------------------------------------------------------------------------------------------
  // Weak comparison

  predicate IsWeak(tag: Bytes) {
    |tag| >= 2 && tag[..2] == WEAK
  }

  /** etagWeakMatch */
  predicate WeakMatch(candidate: Bytes, etag: Bytes) {
    || candidate == etag
    || (IsWeak(candidate) && candidate[2..] == etag)
    || (IsWeak(etag) && etag[2..] == candidate)
  }

  /** entity-tag (section 2.3 of RFC 7232): an opaque tag in quotes, perhaps marked weak. */
  predicate EntityTag(tag: Bytes) {
    Quoted(Opaque(tag))
  }

  predicate Quoted(s: Bytes) {
    && |s| >= 2 && s[0] == QUOTE && s[|s| - 1] == QUOTE
    && forall k :: 1 <= k < |s| - 1 ==> s[k] == 0x21 || 0x23 <= s[k] <= 0x7e || s[k] >= 0x80
  }

  function Opaque(tag: Bytes): Bytes {
    if IsWeak(tag) then tag[2..] else tag
  }

  /** On entity tags the test is the weak comparison of section 2.3.2 of RFC 7232: the opaque tags are equal.
      On other strings it is so except when one side is a tag that starts with the weak mark twice and the
      other is that tag with one mark less. */
  lemma {:induction false} WeakMatchIsOpaqueEquality(a: Bytes, b: Bytes)
    ensures (WeakMatch(a, b) <==> Opaque(a) == Opaque(b)) <==>
            !(IsWeak(a) && IsWeak(b) && (a == WEAK + b || b == WEAK + a))
    ensures EntityTag(a) && EntityTag(b) ==> (WeakMatch(a, b) <==> Opaque(a) == Opaque(b))
  {
    assert IsWeak(a) ==> a == WEAK + a[2..];
    assert IsWeak(b) ==> b == WEAK + b[2..];
    assert a == WEAK + b ==> a[2..] == b;
    assert b == WEAK + a ==> b[2..] == a;
  }

  /** So it is an equivalence on entity tags. */
  lemma {:induction false} WeakMatchIsEquivalence(a: Bytes, b: Bytes, c: Bytes)
    requires EntityTag(a) && EntityTag(b) && EntityTag(c)
    ensures WeakMatch(a, a) && (WeakMatch(a, b) <==> WeakMatch(b, a))
    ensures WeakMatch(a, b) && WeakMatch(b, c) ==> WeakMatch(a, c)
  {
    WeakMatchIsOpaqueEquality(a, b);
    WeakMatchIsOpaqueEquality(b, c);
    WeakMatchIsOpaqueEquality(a, c);
  }

  /** Not so on all strings: a tag marked weak twice matches the tag marked once, which matches the tag
      itself. */
  lemma {:induction false} WeakMatchIsNotTransitive(x: Bytes)
    requires !IsWeak(x)
    ensures WeakMatch(WEAK + (WEAK + x), WEAK + x) && WeakMatch(WEAK + x, x) && !WeakMatch(WEAK + (WEAK + x), x)
  {
    var once := WEAK + x;
    var twice := WEAK + once;
    assert once[2..] == x && twice[2..] == once;
    assert |twice| == |x| + 4;
  }

  // ---------------------------------------------------------------------------------------------
  // isFresh

  predicate Matches(part: Bytes, etag: Bytes) {
    WeakMatch(TrimSpace(part), etag)
  }

  /** What the scan looks at: the parts between commas, but not an empty last one. */
  function Elements(s: Bytes): seq<Bytes> {
    var parts := Split(s, COMMA);
    if parts[|parts| - 1] == [] then parts[..|parts| - 1] else parts
  }

  predicate Listed(list: Bytes, etag: Bytes) {
    exists part <- Elements(list) :: Matches(part, etag)
  }

  lemma {:induction false} ElementsStep(s: Bytes)
    ensures var i := IndexByte(s, COMMA);
            Elements(s) == if i < |s| then [s[..i]] + Elements(s[i + 1..]) else if s == [] then [] else [s]
  {
    var i := IndexByte(s, COMMA);
    if i < |s| {
      var tail := Split(s[i + 1..], COMMA);
      var parts := Split(s, COMMA);
      assert parts == [s[..i]] + tail;
      assert parts[|parts| - 1] == tail[|tail| - 1];
    }
  }

  lemma {:induction false} ListedStep(s: Bytes, etag: Bytes)
    ensures var i := IndexByte(s, COMMA);
            Listed(s, etag) <==> s != [] && (Matches(s[..i], etag) || (i < |s| && Listed(s[i + 1..], etag)))
  {
    ElementsStep(s);
    var i := IndexByte(s, COMMA);
    hide Elements, IndexByte, Matches;
    if i < |s| {
      var head, tail := s[..i], Elements(s[i + 1..]);
      assert head in [head] + tail;
      assert forall p <- tail :: p in [head] + tail;
    } else {
      assert s[..i] == s;
      assert s in [s];
    }
  }

  /** The regular expression `(?:^|,)\s*?no-cache\s*?(?:,|$)`: some part between commas is the word, with
      white space around it. */
  predicate NoCache(cacheControl: Bytes) {
    exists part <- Split(cacheControl, COMMA) :: IsNoCacheWord(part)
  }

  predicate IsNoCacheWord(part: Bytes) {
    exists n: nat :: n + |NO_CACHE| <= |part| && part[n..n + |NO_CACHE|] == NO_CACHE
                     && RegexSpaces(part[..n]) && RegexSpaces(part[n + |NO_CACHE|..])
  }

  predicate RegexSpaces(s: Bytes) {
    forall c <- s :: c in {9, 10, 12, 13, 32}
  }

  /** The word with blanks around it. */
  ghost predicate PaddedNoCache(part: Bytes) {
    exists left: Bytes, right: Bytes ::
      part == left + Ascii("no-cache") + right && forall c <- left + right :: c in {9, 10, 12, 13, 32}
  }

  /** The expression is found exactly if an element of the list is that word. */
  lemma {:induction false} NoCacheIff(parts: seq<Bytes>)
    requires parts != [] && forall part <- parts :: COMMA !in part
    ensures NoCache(Join(parts, COMMA)) <==> exists part <- parts :: PaddedNoCache(part)
  {
    SplitJoin(parts, COMMA);
    forall part ensures IsNoCacheWord(part) <==> PaddedNoCache(part) {
      NoCacheWordIff(part);
    }
    hide IsNoCacheWord, PaddedNoCache, Join, Split;
  }

  lemma {:induction false} NoCacheWordIff(part: Bytes)
    ensures IsNoCacheWord(part) <==> PaddedNoCache(part)
  {
    hide Ascii;
    if IsNoCacheWord(part) {
      var n: nat :| n + |NO_CACHE| <= |part| && part[n..n + |NO_CACHE|] == NO_CACHE
                    && RegexSpaces(part[..n]) && RegexSpaces(part[n + |NO_CACHE|..]);
      var left, right := part[..n], part[n + |NO_CACHE|..];
      assert part == left + NO_CACHE + right;
      assert forall c <- left + right :: c in left || c in right;
    }
    if left: Bytes, right: Bytes :|
      part == left + NO_CACHE + right && forall c <- left + right :: c in {9, 10, 12, 13, 32}
    {
      WordBetween(left, NO_CACHE, right);
      assert (forall c <- left :: c in left + right) && forall c <- right :: c in left + right;
    }
  }

  lemma {:induction false} WordBetween(left: Bytes, word: Bytes, right: Bytes)
    ensures var part, n := left + word + right, |left|;
            part[n..n + |word|] == word && part[..n] == left && part[n + |word|..] == right
  {
  }

  /** Whether a copy is still fresh.  `date` is parseHTTPDate, 0 for a malformed date. */
  predicate Fresh(modifiedSince: Bytes, noneMatch: Bytes, cacheControl: Bytes, lastModified: Bytes, etag: Bytes,
                  date: Bytes -> int)
  {
    && (modifiedSince != [] || noneMatch != [])
    && !NoCache(cacheControl)
    && (noneMatch !in {[], STAR} ==> etag != [] && Listed(noneMatch, etag))
    && (modifiedSince != [] ==>
          && lastModified != [] && date(lastModified) != 0 && date(modifiedSince) != 0
          && date(modifiedSince) >= date(lastModified))
  }

  lemma {:induction false} NoCacheOfNothing()
    ensures !NoCache([])
  {
    assert Split([], COMMA) == [[]];
    assert |NO_CACHE| == 8;
  }

  /** isFresh */
  method IsFresh(modifiedSince: Bytes, noneMatch: Bytes, cacheControl: Bytes, lastModified: Bytes, etag: Bytes,
                 date: Bytes -> int) returns (stillFresh: bool)
    ensures stillFresh == Fresh(modifiedSince, noneMatch, cacheControl, lastModified, etag, date)
  {
    NoCacheOfNothing();
    hide NoCache, Listed, Matches;
    if modifiedSince == [] && noneMatch == [] {
      return false;
    }
    if cacheControl != [] && NoCache(cacheControl) {
      return false;
    }
    if noneMatch != [] && noneMatch != STAR {
      if etag == [] {
        return false;
      }
      var etagStale := true;
      var rest := noneMatch;
      while rest != []
        invariant etagStale && (Listed(noneMatch, etag) <==> Listed(rest, etag))
        decreases |rest|
      {
        ListedStep(rest, etag);
        ListedStep([], etag);
        var part;
        var i := IndexByte(rest, COMMA);
        if i < |rest| {
          part, rest := rest[..i], rest[i + 1..];
        } else {
          assert rest[..i] == rest;
          part, rest := rest, [];
        }
        if Matches(part, etag) {
          etagStale := false;
          break;
        }
      }
      ListedStep([], etag);
      if etagStale {
        return false;
      }
    }
    if modifiedSince != [] {
      if lastModified == [] {
        return false;
      }
      var lastModifiedUnix, modifiedSinceUnix := date(lastModified), date(modifiedSince);
      if lastModifiedUnix == 0 || modifiedSinceUnix == 0 {
        return false;
      }
      if modifiedSinceUnix < lastModifiedUnix {
        return false;
      }
    }
    return true;
  }

  /** The scan sees every part between commas: for each tag except the bare weak mark, which an empty part
      matches, and the scan does not look at an empty last part. */
  lemma {:induction false} ScanSeesEveryPart(list: Bytes, etag: Bytes)
    requires etag != [] && etag != WEAK
    ensures Listed(list, etag) <==> exists part <- Split(list, COMMA) :: Matches(part, etag)
  {
    var parts := Split(list, COMMA);
    var last := parts[|parts| - 1];
    if last == [] {
      assert parts == parts[..|parts| - 1] + [last];
      assert TrimSpace([]) == [];
      assert IsWeak(etag) ==> etag == WEAK + etag[2..];
      assert !Matches(last, etag);
      hide Matches;
      if part :| part in parts && Matches(part, etag) {
        assert part in Elements(list);
      }
    }
  }

  lemma {:induction false} EmptyLastPartIsNotSeen()
    ensures var list: Bytes := [QUOTE, COMMA];
            !Listed(list, WEAK) && exists part <- Split(list, COMMA) :: Matches(part, WEAK)
  {
    var s: Bytes := [QUOTE, COMMA];
    assert s[..1] == [QUOTE] && s[2..] == [];
    assert IndexByte(s, COMMA) == 1 by { IndexByteAt([QUOTE], COMMA, []); assert [QUOTE] + [COMMA] + [] == s; }
    assert Split([], COMMA) == [[]];
    assert Split(s, COMMA) == [[QUOTE]] + Split([], COMMA) == [[QUOTE], []];
    assert Elements(s) == [[QUOTE]];
    assert TrimSpace([QUOTE]) == [QUOTE];
    assert TrimSpace([]) == [];
    assert Matches([], WEAK);
  }

  // ---------------------------------------------------------------------------------------------
  // Entity tags

  function HexDigit(n: nat): byte
    requires n < 16
  {
    if n < 10 then 48 + n else 87 + n
  }

  /** strconv.FormatInt(n, 16) */
  function Hex(n: nat): (s: Bytes)
    ensures s != [] && forall c <- s :: 48 <= c <= 57 || 97 <= c <= 102
  {
    if n < 16 then [HexDigit(n)] else Hex(n / 16) + [HexDigit(n % 16)]
  }

  /** A string in the URL alphabet of base64 (section 5 of RFC 4648). */
  predicate Base64URL(s: Bytes) {
    forall c <- s :: 65 <= c <= 90 || 97 <= c <= 122 || 48 <= c <= 57 || c in {45, 95, 61}
  }

  /** genETag, given the base64 form of the hash; the hash of nothing is a constant. */
  function GenETag(body: Bytes, hash: Bytes -> Bytes): Bytes {
    [QUOTE] + Hex(|body|) + [DASH] + hash(body) + [QUOTE]
  }

  /** What is generated is a strong entity tag that holds no comma and no white space. */
  lemma {:induction false} GeneratedIsEntityTag(body: Bytes, hash: Bytes -> Bytes)
    requires Base64URL(hash(body))
    ensures var tag := GenETag(body, hash);
            && EntityTag(tag) && !IsWeak(tag) && |tag| > 3
            && forall c <- tag :: c != COMMA && !SpaceByte(c)
  {
    var tag, inner := GenETag(body, hash), Hex(|body|) + [DASH] + hash(body);
    assert forall c <- inner :: c in Hex(|body|) || c == DASH || c in hash(body);
    hide Hex;
    assert tag == [QUOTE] + inner + [QUOTE];
    assert forall k :: 1 <= k < |tag| - 1 ==> tag[k] == inner[k - 1] && inner[k - 1] in inner;
    assert forall c <- tag :: c == QUOTE || c in inner;
    assert tag[0] == QUOTE;
  }

  function HexDigitValue(c: byte): nat {
    if c < 58 then (if c >= 48 then c - 48 else 0) else if c >= 87 then c - 87 else 0
  }

  function HexValue(s: Bytes): nat {
    if s == [] then 0 else 16 * HexValue(s[..|s| - 1]) + HexDigitValue(s[|s| - 1])
  }

  lemma {:induction false} HexRoundTrip(n: nat)
    ensures HexValue(Hex(n)) == n
  {
    if n < 16 {
      assert [HexDigit(n)][..0] == [];
    } else {
      HexRoundTrip(n / 16);
      assert Hex(n)[..|Hex(n)| - 1] == Hex(n / 16);
    }
  }

  /** Two bodies have the same tag exactly if they have the same length and the same hash. */
  lemma {:induction false} TagTellsBodiesApart(a: Bytes, b: Bytes, hash: Bytes -> Bytes)
    ensures GenETag(a, hash) == GenETag(b, hash) <==> |a| == |b| && hash(a) == hash(b)
  {
    HexRoundTrip(|a|);
    HexRoundTrip(|b|);
    TagParts(Hex(|a|), hash(a));
    TagParts(Hex(|b|), hash(b));
    hide Hex, HexValue;
  }

  /** The length and the hash can be read back from a tag. */
  lemma {:induction false} TagParts(size: Bytes, hash: Bytes)
    requires DASH !in size
    ensures var tag := [QUOTE] + size + [DASH] + hash + [QUOTE];
            var i := IndexByte(tag, DASH);
            0 < i < |tag| - 1 && tag[1..i] == size && tag[i + 1..|tag| - 1] == hash
  {
    var tag := [QUOTE] + size + [DASH] + hash + [QUOTE];
    IndexByteAt([QUOTE] + size, DASH, hash + [QUOTE]);
    assert tag == ([QUOTE] + size) + [DASH] + (hash + [QUOTE]);
  }

  lemma {:induction false} TrimLeftSpaces(left: Bytes, s: Bytes)
    requires (forall c <- left :: SpaceByte(c)) && (s != [] ==> !SpaceByte(s[0]))
    ensures TrimLeft(left + s) == s
    decreases |left|
  {
    if left == [] {
      assert left + s == s;
    } else {
      assert (left + s)[0] == left[0] && left[0] in left;
      assert (left + s)[1..] == left[1..] + s;
      assert forall c <- left[1..] :: c in left;
      TrimLeftSpaces(left[1..], s);
    }
  }

  lemma {:induction false} TrimRightSpaces(s: Bytes, right: Bytes)
    requires (forall c <- right :: SpaceByte(c)) && (s != [] ==> !SpaceByte(s[|s| - 1]))
    ensures TrimRight(s + right) == s
    decreases |right|
  {
    if right == [] {
      assert s + right == s;
    } else {
      var shorter := right[..|right| - 1];
      assert (s + right)[|s + right| - 1] == right[|right| - 1] && right[|right| - 1] in right;
      assert (s + right)[..|s + right| - 1] == s + shorter;
      assert forall c <- shorter :: c in right;
      TrimRightSpaces(s, shorter);
    }
  }

  lemma {:induction false} TrimPadded(left: Bytes, s: Bytes, right: Bytes)
    requires forall c <- left + right :: SpaceByte(c)
    requires s != [] && forall c <- s :: !SpaceByte(c)
    ensures TrimSpace(left + s + right) == s
  {
    assert forall c <- left :: c in left + right;
    assert forall c <- right :: c in left + right;
    assert s[0] in s && s[|s| - 1] in s;
    assert left + s + right == left + (s + right);
    TrimLeftSpaces(left, s + right);
    TrimRightSpaces(s, right);
  }
}
