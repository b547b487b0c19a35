/** The cache middleware as code: the parts of the handler between two accesses to shared state, working on a
    Context and a store in place.  CacheRuns interleaves exactly these parts. */
module CacheHandler {
  import opened Text
  import opened Decimal
  import opened HttpHeader
  import opened HeaderCodec
  import opened CacheControl
  import opened CacheCodec
  import opened CacheStore
  import opened CacheReply

  const FETCH := Ascii("fetch")
  const PASS := Ascii("hit-for-pass")

  /** The response side of elton.Context. */
  class Context {
    var header: Header
    var statusCode: int
    var bodyBuffer: Option<Bytes>
    var body: Body

    constructor (r: Reply)
      ensures Abs() == r
    {
      header, statusCode, bodyBuffer, body := r.header, r.statusCode, r.bodyBuffer, r.body;
    }

    ghost function Abs(): Reply
      reads this
    {
      Reply(header, statusCode, bodyBuffer, body)
    }

    method MergeHeader(h: Header)
      modifies `header
      ensures Merges(old(header), h, header)
    {
      var left := h.Keys;
      ghost var order: seq<Bytes> := [];
      while left != {}
        invariant left <= h.Keys
        invariant Enumerates(order, h.Keys - left)
        invariant header == MergeInOrder(old(header), h, order)
        decreases left
      {
        var key :| key in left;
        left := left - {key};
        var values := h[key];
        ghost var before := header;
        for i := 0 to |values|
          invariant AddAll(header, key, values[i..]) == AddAll(before, key, values)
        {
          assert values[i..][1..] == values[i + 1..];
          header := Add(header, key, values[i]);
        }
        assert key !in order;
        MergeOneMore(old(header), h, order, key);
        order := order + [key];
      }
    }

    /** CacheResponse.SetBody; fails when decompressing does. */
    method SetBody(cp: CacheResponse, acceptEncoding: Bytes, compressor: Option<Compressor>) returns (ok: bool)
      modifies this
      ensures match CacheReply.SetBody(cp, old(Abs()), acceptEncoding, compressor)
              case Some(r) => ok && Abs() == r
              case None => !ok && Abs() == old(Abs())
    {
      if |cp.body| != 0 {
        match GetBody(cp, acceptEncoding, compressor)
        case None => return false;
        case Some((data, encoding)) =>
          header := Put(header, CONTENT_ENCODING, encoding);
          bodyBuffer := Some(data);
      }
      return true;
    }
  }

  lemma {:induction false} MergeOneMore(h: Header, add: Header, order: seq<Bytes>, k: Bytes)
    ensures MergeInOrder(h, add, order + [k]) == AddAll(MergeInOrder(h, add, order), k, ValuesOf(add, k))
    decreases |order|
  {
    if order == [] {
      assert (order + [k])[1..] == [];
    } else {
      assert (order + [k])[1..] == order[1..] + [k];
      MergeOneMore(AddAll(h, order[0], ValuesOf(add, order[0])), add, order[1..], k);
    }
  }

  /** From the start of the handler to the point where it answers or calls Next: reads the store. */
  method Begin(cfg: Config, c: Context, store: LRUStore, key: Bytes, clock: nat) returns (cp: CacheResponse)
    modifies c
    ensures cp == Decode(cfg.dict, Unstamped(if key in store.entries then Some(store.entries[key]) else None, clock))
    ensures var mark := if cp.status == STATUS_HIT_FOR_PASS then Ascii("hit-for-pass") else Ascii("fetch");
            c.Abs() == if cp.status == STATUS_HIT then old(c.Abs())
                       else old(c.Abs()).(header := old(c.header)[X_CACHE := [mark]])
  {
    var data := store.Get(key, clock);
    cp := NewCacheResponse(cfg.dict, data);
    if cp.status == STATUS_HIT_FOR_PASS {
      c.header := Put(c.header, X_CACHE, PASS);
    } else if cp.status != STATUS_HIT {
      c.header := Put(c.header, X_CACHE, FETCH);
    }
  }

  /** The branch for a hit. */
  method ServeHit(cfg: Config, c: Context, cp: CacheResponse, clock: nat, acceptEncoding: Bytes) returns (ok: bool)
    modifies c
    ensures ok ==> Served(cfg, old(c.Abs()), cp, clock, acceptEncoding, Some(c.Abs()))
    ensures !ok ==> Served(cfg, old(c.Abs()), cp, clock, acceptEncoding, None)
  {
    c.header := Put(c.header, X_CACHE, HIT);
    var age := AgeOf(cp.createdAt, clock);
    c.header := Put(c.header, AGE, Digits(age));
    c.statusCode := cp.statusCode;
    c.header := Put(c.header, CACHE_CONTROL, []);
    c.MergeHeader(cp.header);
    ghost var merged := c.header;
    assert Merges(HitHeader(old(c.header), age), cp.header, merged);
    ok := c.SetBody(cp, acceptEncoding, cfg.compressor);
  }

  /** After c.Next() has returned nil: decides, encodes, and stores.  The clock is read twice. */
  method Finish(cfg: Config, c: Context, store: LRUStore, key: Bytes, hitForPassTTL: int, clock: nat, later: nat,
                acceptEncoding: Bytes) returns (ok: bool)
    modifies c, store
    ensures match Decide(cfg, old(c.Abs()), Seconds(clock))
            case Fail => !ok && store.entries == old(store.entries) && c.Abs() == old(c.Abs())
            case MarkHitForPass =>
              && ok && c.Abs() == old(c.Abs())
              && store.entries == old(store.entries)[key := Stamped([STATUS_HIT_FOR_PASS], later, hitForPassTTL)]
            case Keep(entry, lifetime) =>
              && (exists data :: EncodesTo(cfg.dict, entry, cfg.ignoreHeaders, data)
                    && store.entries == old(store.entries)[key := Stamped(data, later, Wrap64(lifetime * SECOND))])
              && match CacheReply.SetBody(entry, old(c.Abs()), acceptEncoding, cfg.compressor)
                 case Some(r) => ok && c.Abs() == r
                 case None => !ok && c.Abs() == old(c.Abs())
    // the client that caused the fetch is answered with the body that the handlers left
    ensures cfg.Valid() && Decide(cfg, old(c.Abs()), Seconds(clock)).Keep? ==>
              && ok
              && (old(c.bodyBuffer).Some? ==> Obtains(cfg, old(c.bodyBuffer).value, old(c.bodyBuffer), c.Abs()))
              && (old(c.bodyBuffer).None? ==>
                    && cfg.marshal(old(c.body)).Some?
                    && Obtains(cfg, cfg.marshal(old(c.body)).value, old(c.bodyBuffer), c.Abs()))
  {
    var r := Reply(c.header, c.statusCode, c.bodyBuffer, c.body);
    var (cacheable, cacheAge) := IsCacheable(r);
    if !cacheable {
      store.Set(key, [STATUS_HIT_FOR_PASS], later, hitForPassTTL);
      return true;
    }
    var buffer: Bytes;
    match BodyBytes(cfg, r) {
      case None => return false;
      case Some(b) => buffer := b;
    }
    var compressionType := COMPRESSION_NONE;
    if cfg.compressor.Some? && cfg.compressor.value.isValid(First(c.header, CONTENT_TYPE), |buffer|) {
      match cfg.compressor.value.compress(buffer) {
        case None => return false;
        case Some(b) => buffer, compressionType := b, cfg.compressor.value.compression;
      }
    }
    var cacheResp := CacheResponse(STATUS_HIT, Seconds(clock), c.statusCode, c.header, compressionType, buffer);
    var data := ToBytes(cfg.dict, cacheResp, cfg.ignoreHeaders);
    store.Set(key, data, later, Wrap64(cacheAge * SECOND));
    ok := c.SetBody(cacheResp, acceptEncoding, cfg.compressor);
    if cfg.Valid() {
      FetchDelivers(cfg, r, Seconds(clock), acceptEncoding);
    }
  }
}
