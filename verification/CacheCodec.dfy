/** The binary form of a cached response (middleware/cache.go). */
module CacheCodec {
  import opened Text
  import opened HttpHeader
  import opened HeaderCodec

  const STATUS_UNKNOWN: byte := 0
  const STATUS_HIT_FOR_PASS: byte := 1
  const STATUS_HIT: byte := 2

  /** status, creation time, status code, header length */
  const PREFIX_SIZE := 1 + 4 + 2 + 4

  type uint32 = n: nat | n < 0x1_0000_0000

  /** A nil header is the empty map, a nil body the empty one. */
  datatype CacheResponse = CacheResponse(
    status: byte,
    createdAt: uint32,
    statusCode: int,
    header: Header,
    compression: byte,
    body: Bytes)

  const DEFAULT_IGNORE_HEADERS := [
    CONTENT_ENCODING,
    CONTENT_LENGTH,
    Ascii("Connection"),
    Ascii("Date"),
    AGE,
    X_CACHE
  ]

  function JustStatus(status: byte): CacheResponse {
    CacheResponse(status, 0, 0, map[], 0, [])
  }

  // ---------------------------------------------------------------------------------------------
  // Encoding

  /** The layout of a hit, given its encoded headers. */
  function Layout(cp: CacheResponse, headers: Bytes): (data: Bytes)
    ensures |data| == PREFIX_SIZE + |headers| + 1 + |cp.body|
  {
    Prefix(cp, |headers|) + headers + [cp.compression] + cp.body
  }

  function Prefix(cp: CacheResponse, headersLength: nat): (data: Bytes)
    ensures |data| == PREFIX_SIZE
  {
    [cp.status] + PutUint32(cp.createdAt) + PutUint16(cp.statusCode % 0x1_0000)
      + PutUint32(headersLength % 0x1_0000_0000)
  }

  /** What CacheResponse.Bytes may return: the map may be iterated in any order. */
  ghost predicate EncodesTo(d: HeaderIndexes, cp: CacheResponse, ignore: seq<Bytes>, data: Bytes) {
    if cp.status != STATUS_HIT then data == [cp.status]
    else exists headers :: Encodes(d, cp.header, ignore + DEFAULT_IGNORE_HEADERS, headers)
                           && data == Layout(cp, headers)
  }

  /** Writes `data` at `offset`, and leaves what is before it. */
  method WriteAt(buf: array<byte>, offset: nat, data: Bytes)
    requires offset + |data| <= buf.Length
    modifies buf
    ensures buf[..offset + |data|] == old(buf[..offset]) + data
  {
    for i := 0 to |data|
      invariant buf[..offset] == old(buf[..offset])
      invariant forall k :: 0 <= k < i ==> buf[offset + k] == data[k]
    {
      buf[offset + i] := data[i];
    }
  }

  /** CacheResponse.Bytes: the buffer is filled in place, field by field. */
  method ToBytes(d: HeaderIndexes, cp: CacheResponse, ignoreHeaders: seq<Bytes>) returns (data: Bytes)
    ensures EncodesTo(d, cp, ignoreHeaders, data)
  {
    if cp.status != STATUS_HIT {
      return [cp.status];
    }
    var headers := NewHTTPHeaders(d, cp.header, ignoreHeaders + DEFAULT_IGNORE_HEADERS);
    var buf := new byte[PREFIX_SIZE + |headers| + 1 + |cp.body|](_ => 0);
    var offset := 0;
    buf[offset] := cp.status;
    offset := offset + 1;
    assert buf[..offset] == [cp.status];
    WriteAt(buf, offset, PutUint32(cp.createdAt));
    offset := offset + 4;
    WriteAt(buf, offset, PutUint16(cp.statusCode % 0x1_0000));
    offset := offset + 2;
    WriteAt(buf, offset, PutUint32(|headers| % 0x1_0000_0000));
    offset := offset + 4;
    assert buf[..offset] == Prefix(cp, |headers|);
    if |headers| != 0 {
      WriteAt(buf, offset, headers);
      offset := offset + |headers|;
    }
    ghost var head := Prefix(cp, |headers|) + headers;
    assert buf[..offset] == head;
    buf[offset] := cp.compression;
    assert buf[..offset] == head;
    offset := offset + 1;
    assert buf[..offset] == head + [cp.compression];
    if |cp.body| != 0 {
      WriteAt(buf, offset, cp.body);
    }
    data := buf[..];
    assert data == Layout(cp, headers);
  }

  // ---------------------------------------------------------------------------------------------
  // Decoding

  /** NewCacheResponse.  It is defined on every byte string. */
  function Decode(d: HeaderIndexes, data: Bytes): CacheResponse {
    if |data| < 1 then JustStatus(STATUS_UNKNOWN)
    else if |data| < PREFIX_SIZE then JustStatus(data[0])
    else
      var size := Uint32(data[7..]);
      if |data| < PREFIX_SIZE + size + 1 then JustStatus(STATUS_UNKNOWN)
      else
        CacheResponse(
          data[0], Uint32(data[1..]), Uint16(data[5..]), DecodeHeaders(d, data[PREFIX_SIZE..PREFIX_SIZE + size]),
          data[PREFIX_SIZE + size], data[PREFIX_SIZE + size + 1..])
  }

  /** NewCacheResponse as written: an offset that moves over the data. */
  method NewCacheResponse(d: HeaderIndexes, data: Bytes) returns (cp: CacheResponse)
    ensures cp == Decode(d, data)
  {
    var dataSize := |data|;
    if dataSize < 1 {
      return JustStatus(STATUS_UNKNOWN);
    }
    if dataSize < PREFIX_SIZE {
      return JustStatus(data[0]);
    }
    var offset := 0;
    var status := data[offset];
    offset := offset + 1;
    var createdAt := Uint32(data[offset..]);
    offset := offset + 4;
    var statusCode := Uint16(data[offset..]);
    offset := offset + 2;
    var size := Uint32(data[offset..]);
    offset := offset + 4;
    if dataSize < offset + size + 1 {
      return JustStatus(STATUS_UNKNOWN);
    }
    var header := HeaderOf(d, data[offset..offset + size]);
    offset := offset + size;
    var compression := data[offset];
    offset := offset + 1;
    cp := CacheResponse(status, createdAt, statusCode, header, compression, data[offset..]);
  }

  // ---------------------------------------------------------------------------------------------
  // Round trip and truncation

  lemma PrefixFields(cp: CacheResponse, n: uint32, after: Bytes)
    ensures var data := Prefix(cp, n) + after;
            && data[0] == cp.status
            && Uint32(data[1..]) == cp.createdAt
            && Uint16(data[5..]) == cp.statusCode % 0x1_0000
            && Uint32(data[7..]) == n
            && data[PREFIX_SIZE..] == after
  {
    hide PutUint32, PutUint16, Uint32, Uint16;
    var a, b, c := PutUint32(cp.createdAt), PutUint16(cp.statusCode % 0x1_0000), PutUint32(n % 0x1_0000_0000);
    var data := Prefix(cp, n) + after;
    assert data == [cp.status] + a + b + c + after;
    assert data[7..] == c + after;
    assert data[5..] == b + (c + after);
    assert data[1..] == a + (b + (c + after));
    Uint32RoundTrip(cp.createdAt, b + (c + after));
    Uint16RoundTrip(cp.statusCode % 0x1_0000, c + after);
    Uint32RoundTrip(n, after);
  }

  /** Every truncation of a stored hit, and the whole of it, is classified. */
  lemma DecodePrefix(d: HeaderIndexes, cp: CacheResponse, headers: Bytes, k: nat)
    requires |headers| < 0x1_0000_0000 && k <= |Layout(cp, headers)|
    ensures var r := Decode(d, Layout(cp, headers)[..k]);
            if k == 0 then r == JustStatus(STATUS_UNKNOWN)
            else if k < PREFIX_SIZE then r == JustStatus(cp.status)
            else if k <= PREFIX_SIZE + |headers| then r == JustStatus(STATUS_UNKNOWN)
            else r == CacheResponse(
                   cp.status, cp.createdAt, cp.statusCode % 0x1_0000, DecodeHeaders(d, headers), cp.compression,
                   cp.body[..k - PREFIX_SIZE - |headers| - 1])
  {
    var full := Layout(cp, headers);
    var data := full[..k];
    if 0 < k < PREFIX_SIZE {
      assert data[0] == cp.status;
    } else if k >= PREFIX_SIZE {
      var rest := headers + [cp.compression] + cp.body;
      assert full == Prefix(cp, |headers|) + rest;
      assert data == Prefix(cp, |headers|) + rest[..k - PREFIX_SIZE];
      PrefixFields(cp, |headers|, rest[..k - PREFIX_SIZE]);
      if k > PREFIX_SIZE + |headers| {
        assert data[PREFIX_SIZE..PREFIX_SIZE + |headers|] == headers;
        assert data[PREFIX_SIZE + |headers|] == cp.compression;
        assert data[PREFIX_SIZE + |headers| + 1..] == cp.body[..k - PREFIX_SIZE - |headers| - 1];
      }
    }
  }

  lemma LayoutRoundTrip(d: HeaderIndexes, cp: CacheResponse, headers: Bytes)
    requires |headers| < 0x1_0000_0000 && 0 <= cp.statusCode < 0x1_0000
    ensures Decode(d, Layout(cp, headers)) == cp.(header := DecodeHeaders(d, headers))
  {
    hide Layout, Decode, DecodeHeaders;
    var data := Layout(cp, headers);
    var k := |data|;
    DecodePrefix(d, cp, headers, k);
    assert data[..k] == data;
    assert k - PREFIX_SIZE - |headers| - 1 == |cp.body| && cp.body[..|cp.body|] == cp.body;
  }

  /** The encoded headers fit the 4-byte length, in whatever order they are written. */
  ghost predicate Fits(d: HeaderIndexes, h: Header, ignore: seq<Bytes>) {
    forall headers :: Encodes(d, h, ignore + DEFAULT_IGNORE_HEADERS, headers) ==> |headers| < 0x1_0000_0000
  }

  /** NewCacheResponse undoes Bytes for a hit: only the ignored headers and lost empty values are missing. */
  lemma HitRoundTrip(d: HeaderIndexes, cp: CacheResponse, ignore: seq<Bytes>, data: Bytes)
    requires d.Valid() && cp.status == STATUS_HIT && WellFormed(cp.header) && 0 <= cp.statusCode < 0x1_0000
    requires Fits(d, cp.header, ignore) && EncodesTo(d, cp, ignore, data)
    ensures Decode(d, data) == cp.(header := Kept(cp.header, ignore + DEFAULT_IGNORE_HEADERS))
  {
    hide Layout, Decode, Kept, Encodes;
    var headers :| Encodes(d, cp.header, ignore + DEFAULT_IGNORE_HEADERS, headers) && data == Layout(cp, headers);
    LayoutRoundTrip(d, cp, headers);
    HeadersRoundTrip(d, cp.header, ignore + DEFAULT_IGNORE_HEADERS, headers);
  }

  /** A hit-for-pass mark, or any other status, keeps its status and nothing else. */
  lemma MarkRoundTrip(d: HeaderIndexes, cp: CacheResponse, ignore: seq<Bytes>, data: Bytes)
    requires cp.status != STATUS_HIT && EncodesTo(d, cp, ignore, data)
    ensures Decode(d, data) == JustStatus(cp.status)
  {
  }

  /** Contrary to the comment on NewCacheResponse, damaged data is not always Unknown: what is left of a hit
      after 1 to 10 bytes reads as a hit with status code 0, no header and no body. */
  lemma ShortHitIsStillAHit(d: HeaderIndexes, cp: CacheResponse, headers: Bytes, k: nat)
    requires cp.status == STATUS_HIT && k <= |Layout(cp, headers)| && |headers| < 0x1_0000_0000
    ensures var r := Decode(d, Layout(cp, headers)[..k]);
            r.status == STATUS_HIT <==> 1 <= k < PREFIX_SIZE || k > PREFIX_SIZE + |headers|
  {
    DecodePrefix(d, cp, headers, k);
  }
}
