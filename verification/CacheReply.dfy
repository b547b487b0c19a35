/** What the cache middleware does to the response of one request (middleware/cache.go). */
module CacheReply {
  import opened Text
  import opened Decimal
  import opened HttpHeader
  import opened HeaderCodec
  import opened CacheControl
  import opened CacheCodec
  import opened CacheStore

  const HIT := Ascii("hit")
  const COMPRESSION_NONE: byte := 0

  /** CacheCompressor; `compress` and `decompress` fail with None. */
  datatype Compressor = Compressor(
    encoding: Bytes,
    compression: byte,
    isValid: (Bytes, nat) -> bool,
    compress: Bytes -> Option<Bytes>,
    decompress: Bytes -> Option<Bytes>)
  {
    /** The laws of brotli, gzip and zstd that the middleware relies on. */
    ghost predicate Lawful() {
      && compression != COMPRESSION_NONE && encoding != []
      && forall x :: compress(x).Some? ==> compress(x).value != [] && decompress(compress(x).value) == Some(x)
    }
  }

  datatype Config = Config(
    dict: HeaderIndexes,
    ignoreHeaders: seq<Bytes>,
    compressor: Option<Compressor>,
    marshal: Body -> Option<Bytes>)
  {
    ghost predicate Valid() {
      dict.Valid() && (compressor.Some? ==> compressor.value.Lawful())
    }
  }

  // ---------------------------------------------------------------------------------------------
  // Deciding

  /** isCacheable. */
  function IsCacheable(r: Reply): (bool, int) {
    if r.body.Reader? then (false, -2)
    else if First(r.header, CONTENT_ENCODING) != [] then (false, -2)
    else if r.statusCode == 0 && r.bodyBuffer.None? && r.body.NoBody? then (false, -1)
    else
      var age := GetCacheMaxAge(r.header);
      (age > 0, age)
  }

  /** getBodyBuffer: the bytes of the response. */
  function BodyBytes(cfg: Config, r: Reply): Option<Bytes> {
    if r.bodyBuffer.Some? then r.bodyBuffer else cfg.marshal(r.body)
  }

  /** The body and compression type to store; None when compressing fails. */
  function ToStore(cfg: Config, r: Reply, buffer: Bytes): Option<(Bytes, byte)> {
    if cfg.compressor.Some? && cfg.compressor.value.isValid(First(r.header, CONTENT_TYPE), |buffer|) then
      match cfg.compressor.value.compress(buffer)
      case Some(data) => Some((data, cfg.compressor.value.compression))
      case None => None
    else Some((buffer, COMPRESSION_NONE))
  }

  datatype Decision = Fail | MarkHitForPass | Keep(entry: CacheResponse, lifetime: nat)

  /** From the response of the handlers behind the cache to what is put into the store. */
  function Decide(cfg: Config, r: Reply, now: uint32): Decision {
    var (cacheable, age) := IsCacheable(r);
    if !cacheable then MarkHitForPass
    else
      match BodyBytes(cfg, r)
      case None => Fail
      case Some(buffer) =>
        match ToStore(cfg, r, buffer)
        case None => Fail
        case Some((body, compression)) =>
          Keep(CacheResponse(STATUS_HIT, now, r.statusCode, r.header, compression, body), age)
  }

  /** Only such responses become hits: of Set-Cookie and Content-Encoding the first value is looked at. */
  lemma OnlyCacheableIsKept(cfg: Config, r: Reply, now: uint32)
    ensures var cc := CacheControlOf(r.header);
            Decide(cfg, r, now).Keep? ==>
              && !r.body.Reader?
              && First(r.header, CONTENT_ENCODING) == []
              && First(r.header, SET_COOKIE) == []
              && !Contains(cc, NO_CACHE) && !Contains(cc, NO_STORE) && !Contains(cc, PRIVATE)
              && Decide(cfg, r, now).lifetime == GetCacheMaxAge(r.header) > 0
  {
  }

  /** A response marks its key for passing exactly if it is a reader, is encoded, is nothing at all, or has no
      lifetime; and it makes the request fail exactly if it is none of these and cannot be marshalled or compressed. */
  lemma DecisionIff(cfg: Config, r: Reply, now: uint32)
    ensures Decide(cfg, r, now).MarkHitForPass? <==>
            || r.body.Reader? || First(r.header, CONTENT_ENCODING) != [] || GetCacheMaxAge(r.header) <= 0
            || (r.statusCode == 0 && r.bodyBuffer == None && r.body == NoBody)
    ensures Decide(cfg, r, now).Keep? <==>
            && !Decide(cfg, r, now).MarkHitForPass?
            && (r.bodyBuffer.None? ==> cfg.marshal(r.body).Some?)
            && var bytes := if r.bodyBuffer.Some? then r.bodyBuffer.value else cfg.marshal(r.body).value;
               cfg.compressor.Some? && cfg.compressor.value.isValid(First(r.header, CONTENT_TYPE), |bytes|)
               ==> cfg.compressor.value.compress(bytes).Some?
  {
    hide GetCacheMaxAge;
  }

  /** An entry keeps status and header, and is compressed exactly if the compressor finds type and size worth it. */
  lemma KeptCompressedIff(cfg: Config, r: Reply, now: uint32)
    requires cfg.Valid() && Decide(cfg, r, now).Keep?
    ensures var entry := Decide(cfg, r, now).entry;
            && entry.statusCode == r.statusCode && entry.header == r.header && entry.createdAt == now
            && (r.bodyBuffer.None? ==> cfg.marshal(r.body).Some?)
            && var bytes := if r.bodyBuffer.Some? then r.bodyBuffer.value else cfg.marshal(r.body).value;
               entry.compression != COMPRESSION_NONE <==>
               cfg.compressor.Some? && cfg.compressor.value.isValid(First(r.header, CONTENT_TYPE), |bytes|)
  {
    hide GetCacheMaxAge;
  }

  /** The response without the two headers. */
  function Bare(r: Reply): Reply {
    r.(header := r.header - {SET_COOKIE, CONTENT_ENCODING})
  }

  /** The name is absent, or listed with an empty value first. */
  predicate StartsEmpty(h: Header, name: Bytes) {
    ValuesOf(h, name) == [] || ValuesOf(h, name)[0] == []
  }

  /** A response with cookies or with a Content-Encoding becomes a hit exactly if it would without them, and each
      of the two headers, if it is there at all, begins with an empty value. */
  lemma {:induction false} KeptWithCookiesIff(cfg: Config, r: Reply, now: uint32)
    ensures Decide(cfg, r, now).Keep? <==>
            Decide(cfg, Bare(r), now).Keep? && StartsEmpty(r.header, SET_COOKIE)
              && StartsEmpty(r.header, CONTENT_ENCODING)
  {
    assert |SET_COOKIE| == 10 && |CONTENT_ENCODING| == 16 && |CACHE_CONTROL| == 13;
    assert |AGE| == 3 && |CONTENT_TYPE| == 12;
    var b := Bare(r);
    assert First(b.header, SET_COOKIE) == [] && First(b.header, CONTENT_ENCODING) == [];
    assert ValuesOf(b.header, CACHE_CONTROL) == ValuesOf(r.header, CACHE_CONTROL);
    assert First(b.header, AGE) == First(r.header, AGE)
           && First(b.header, CONTENT_TYPE) == First(r.header, CONTENT_TYPE);
    hide LifetimeOf, NoCacheMatch, Atoi, Wrap64;
  }

  /** So no cookie is ever stored exactly as long as no handler lists an empty value before one: a response that
      is cacheable without cookies is kept with this one. */
  lemma {:induction false} CookieBehindEmptyIsKept(cfg: Config, r: Reply, now: uint32, cookie: Bytes)
    requires Decide(cfg, Bare(r), now).Keep?
    ensures var r' := Bare(r).(header := Bare(r).header[SET_COOKIE := [[], cookie]]);
            && Decide(cfg, r', now).Keep? && cookie in ValuesOf(Decide(cfg, r', now).entry.header, SET_COOKIE)
  {
    assert |SET_COOKIE| == 10 && |CONTENT_ENCODING| == 16;
    var r' := Bare(r).(header := Bare(r).header[SET_COOKIE := [[], cookie]]);
    assert Bare(r').header == Bare(r).header;
    KeptWithCookiesIff(cfg, r', now);
    assert ValuesOf(r'.header, SET_COOKIE)[1] == cookie;
    hide IsCacheable, Bare;
  }

  // ---------------------------------------------------------------------------------------------
  // Answering

  /** GetBody: the body and Content-Encoding for a client; None when decompressing fails. */
  function GetBody(cp: CacheResponse, acceptEncoding: Bytes, compressor: Option<Compressor>): Option<(Bytes, Bytes)> {
    if compressor.Some? && cp.compression == compressor.value.compression then
      if Contains(acceptEncoding, compressor.value.encoding) then Some((cp.body, compressor.value.encoding))
      else
        match compressor.value.decompress(cp.body)
        case Some(data) => Some((data, []))
        case None => None
    else Some((cp.body, []))
  }

  /** SetBody: None when decompressing fails. */
  function SetBody(cp: CacheResponse, r: Reply, acceptEncoding: Bytes, compressor: Option<Compressor>): Option<Reply> {
    if cp.body == [] then Some(r)
    else
      match GetBody(cp, acceptEncoding, compressor)
      case None => None
      case Some((body, encoding)) =>
        Some(r.(header := Put(r.header, CONTENT_ENCODING, encoding), bodyBuffer := Some(body)))
  }

  /** Adding the headers of `add` in some order. */
  function MergeInOrder(h: Header, add: Header, order: seq<Bytes>): Header
    decreases |order|
  {
    if order == [] then h
    else MergeInOrder(AddAll(h, order[0], ValuesOf(add, order[0])), add, order[1..])
  }

  /** Context.MergeHeader. */
  ghost predicate Merges(h: Header, add: Header, h': Header) {
    exists order :: Enumerates(order, add.Keys) && h' == MergeInOrder(h, add, order)
  }

  /** The header before the cached one is merged into it. */
  function HitHeader(h: Header, age: nat): Header {
    Put(Put(Put(h, X_CACHE, HIT), AGE, Digits(age)), CACHE_CONTROL, [])
  }

  /** The seconds since an entry was created, in uint32 arithmetic. */
  function AgeOf(createdAt: uint32, clock: nat): uint32 {
    (Seconds(clock) - createdAt) % 0x1_0000_0000
  }

  /** Answering a request from a hit: r is the Context afterwards, None when decompressing failed. */
  ghost predicate Served(cfg: Config, r0: Reply, cp: CacheResponse, clock: nat, acceptEncoding: Bytes,
                         r: Option<Reply>)
  {
    exists h ::
      && Merges(HitHeader(r0.header, AgeOf(cp.createdAt, clock)), cp.header, h)
      && r == SetBody(cp, r0.(header := h, statusCode := cp.statusCode), acceptEncoding, cfg.compressor)
  }

  lemma {:induction false} MergeAt(h: Header, add: Header, order: seq<Bytes>, x: Bytes)
    requires forall k <- order :: Canonical(k) == k
    requires forall i, j :: 0 <= i < j < |order| ==> order[i] != order[j]
    ensures ValuesOf(MergeInOrder(h, add, order), x) == ValuesOf(h, x) + if x in order then ValuesOf(add, x) else []
    decreases |order|
  {
    if order != [] {
      var k, rest := order[0], order[1..];
      assert order == [k] + rest;
      AddAllAppends(h, k, ValuesOf(add, k));
      var h1 := AddAll(h, k, ValuesOf(add, k));
      MergeAt(h1, add, rest, x);
      assert x == k ==> ValuesOf(h1, x) == ValuesOf(h, x) + ValuesOf(add, x);
    }
  }

  /** Merging appends the added values of every name, in whatever order the names are visited. */
  lemma MergeAppends(h: Header, add: Header, h': Header, x: Bytes)
    requires Merges(h, add, h') && forall k <- add :: Canonical(k) == k
    ensures ValuesOf(h', x) == ValuesOf(h, x) + ValuesOf(add, x)
  {
    var order :| Enumerates(order, add.Keys) && h' == MergeInOrder(h, add, order);
    MergeAt(h, add, order, x);
  }

  /** The bytes a client obtains from an answer: what is sent, after undoing its Content-Encoding. */
  function Decoded(cfg: Config, encoding: Bytes, sent: Bytes): Option<Bytes> {
    if encoding == [] then Some(sent)
    else if cfg.compressor.Some? && encoding == cfg.compressor.value.encoding then cfg.compressor.value.decompress(sent)
    else None
  }

  /** The entry holds the bytes of the response it was made from. */
  ghost predicate Holds(cfg: Config, cp: CacheResponse, bytes: Bytes) {
    if cp.compression == COMPRESSION_NONE then cp.body == bytes
    else
      && cfg.compressor.Some? && cp.compression == cfg.compressor.value.compression
      && cp.body != [] && cfg.compressor.value.decompress(cp.body) == Some(bytes)
  }

  /** A client that undoes the Content-Encoding of the answer obtains these bytes; only an empty body may be left
      out, so that the answer has the body that was there before. */
  ghost predicate Obtains(cfg: Config, bytes: Bytes, before: Option<Bytes>, answer: Reply) {
    || (answer.bodyBuffer.Some?
        && Decoded(cfg, First(answer.header, CONTENT_ENCODING), answer.bodyBuffer.value) == Some(bytes))
    || (bytes == [] && answer.bodyBuffer == before)
  }

  /** Putting the body of such an entry on a response never fails, and the client obtains those bytes: as they are
      stored if they are compressed in a way that it accepts, decompressed otherwise. */
  lemma SetBodyDelivers(cfg: Config, cp: CacheResponse, bytes: Bytes, r: Reply, acceptEncoding: Bytes)
    requires cfg.Valid() && Holds(cfg, cp, bytes)
    ensures var r' := SetBody(cp, r, acceptEncoding, cfg.compressor);
            && r'.Some? && Obtains(cfg, bytes, r.bodyBuffer, r'.value)
            && (cp.body == [] ==> r'.value == r && bytes == [])
            && (cp.body != [] ==>
                  && r'.value.bodyBuffer.Some?
                  && if cp.compression != COMPRESSION_NONE && Contains(acceptEncoding, cfg.compressor.value.encoding)
                     then r'.value.bodyBuffer.value == cp.body
                          && ValuesOf(r'.value.header, CONTENT_ENCODING) == [cfg.compressor.value.encoding]
                     else r'.value.bodyBuffer.value == bytes && CONTENT_ENCODING !in r'.value.header)
  {
  }

  /** What is kept holds the bytes of the response: those of its BodyBuffer, or else its Body marshalled. */
  lemma KeptHoldsTheBody(cfg: Config, r: Reply, now: uint32)
    requires cfg.Valid() && Decide(cfg, r, now).Keep?
    ensures r.bodyBuffer.Some? ==> Holds(cfg, Decide(cfg, r, now).entry, r.bodyBuffer.value)
    ensures r.bodyBuffer.None? ==>
              cfg.marshal(r.body).Some? && Holds(cfg, Decide(cfg, r, now).entry, cfg.marshal(r.body).value)
  {
  }

  /** The client that caused the fetch obtains the bytes of the response as well. */
  lemma FetchDelivers(cfg: Config, r: Reply, now: uint32, acceptEncoding: Bytes)
    requires cfg.Valid() && Decide(cfg, r, now).Keep?
    ensures var r' := SetBody(Decide(cfg, r, now).entry, r, acceptEncoding, cfg.compressor);
            && r'.Some?
            && (r.bodyBuffer.Some? ==> Obtains(cfg, r.bodyBuffer.value, r.bodyBuffer, r'.value))
            && (r.bodyBuffer.None? ==>
                  cfg.marshal(r.body).Some? && Obtains(cfg, cfg.marshal(r.body).value, r.bodyBuffer, r'.value))
  {
    KeptHoldsTheBody(cfg, r, now);
    var bytes := if r.bodyBuffer.Some? then r.bodyBuffer.value else cfg.marshal(r.body).value;
    SetBodyDelivers(cfg, Decide(cfg, r, now).entry, bytes, r, acceptEncoding);
  }
}
