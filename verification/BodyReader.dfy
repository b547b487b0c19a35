/** Reading a request body of bounded size (middleware/body_parser.go, util.go). */
module BodyReader {
  import opened Text
  import opened Decimal

  datatype Error = Nil | EOF | TooLarge(max: int64) | Failure(code: int)

  type int64 = n: int | -MAX_INT64 - 1 <= n <= MAX_INT64

  function Min(a: nat, b: nat): nat {
    if a <= b then a else b
  }

  /** copy(buf[lo..], data) */
  method Copy(buf: array<byte>, lo: nat, data: Bytes)
    requires lo + |data| <= buf.Length
    modifies buf
    ensures buf[..lo] == old(buf[..lo]) && buf[lo..lo + |data|] == data
  {
    for i := 0 to |data|
      invariant buf[..lo] == old(buf[..lo])
      invariant forall k :: 0 <= k < i ==> buf[lo + k] == data[k]
    {
      buf[lo + i] := data[i];
    }
  }

  /** What the network does at one call of Read: at most `most` bytes, and if they are the last ones, the
      final error with them or only at the next call. */
  datatype Chunk = Chunk(most: nat, eager: bool)

  /** An arbitrary io.ReadCloser: a stream of bytes that ends with an error, cut up in an arbitrary way. */
  class Source {
    const data: Bytes
    const end: Error
    var pos: nat
    var chunks: seq<Chunk>
    var closed: bool

    ghost predicate Valid()
      reads this
    {
      pos <= |data| && end != Nil
    }

    constructor (data: Bytes, end: Error, chunks: seq<Chunk>)
      requires end != Nil
      ensures Valid() && this.data == data && this.end == end && pos == 0
    {
      this.data, this.end, this.chunks, pos, closed := data, end, chunks, 0, false;
    }

    ghost function Rest(): Bytes
      reads this
      requires Valid()
    {
      data[pos..]
    }

    /** Calls of Read left until the end. */
    ghost function Work(): nat
      reads this
      requires Valid()
    {
      |chunks| + |data| - pos + 1
    }

    /** Read(p) for the slice p = buf[lo..hi]; bytes of p beyond the ones returned are scratch space. */
    method Read(buf: array<byte>, lo: nat, hi: nat) returns (n: nat, err: Error)
      requires Valid() && lo <= hi <= buf.Length
      modifies this, buf
      ensures Valid() && closed == old(closed)
      ensures n <= hi - lo && pos == old(pos) + n
      ensures buf[..lo] == old(buf[..lo]) && buf[lo..lo + n] == old(Rest())[..n]
      ensures err != Nil ==> err == end && pos == |data|
      ensures err == Nil && lo < hi ==> Work() < old(Work())
    {
      var left := |data| - pos;
      var chunk := Chunk(hi - lo, false);
      if chunks != [] {
        chunk, chunks := chunks[0], chunks[1..];
      } else if left == 0 {
        return 0, end;
      }
      n := Min(chunk.most, Min(hi - lo, left));
      Copy(buf, lo, data[pos..pos + n]);
      assert data[pos..pos + n] == data[pos..][..n];
      pos := pos + n;
      err := if n == left && chunk.eager then end else Nil;
    }
  }

  /** The bound to which Read cuts a longer slice: an int64 sum. */
  function SliceBound(n: int64): int64 {
    Wrap64(n + 1)
  }

  /** The slice expression panics exactly for the largest limit, whose successor wraps around, and for limits
      below -1. */
  lemma {:induction false} SliceBoundNegativeIff(n: int64)
    ensures SliceBound(n) < 0 <==> n == MAX_INT64 || n < -1
    ensures n < MAX_INT64 ==> SliceBound(n) == n + 1
  {
  }

  /** The limiting reader. */
  class MaxBytesReader {
    const r: Source
    const max: int64
    var n: int64    // max bytes remaining
    var err: Error  // sticky error

    ghost predicate Valid()
      reads this, r
    {
      r.Valid() && (err != Nil && !err.TooLarge? ==> r.pos == |r.data| && err == r.end)
    }

    constructor (r: Source, max: int64)
      requires r.Valid()
      ensures Valid() && this.r == r && this.max == max && n == max && err == Nil
    {
      this.r, this.max, n, err := r, max, max, Nil;
    }

    /** What this reader will still deliver, and the error it will then report. */
    ghost function Rest(): Bytes
      reads this, r
      requires Valid()
    {
      if err != Nil || n < 0 then [] else Deliverable(r.Rest(), n)
    }

    ghost function End(): Error
      reads this, r
      requires Valid()
    {
      if err != Nil then err else if |r.Rest()| > n then TooLarge(max) else r.end
    }

    /** The next Read into a non-empty slice panics. */
    ghost predicate Panics()
      reads this
    {
      err == Nil && SliceBound(n) < 0
    }

    /** Read.  For the limit -1 it returns a negative count, with the error. */
    method Read(buf: array<byte>, lo: nat, hi: nat) returns (k: int, e: Error, panicked: bool)
      requires Valid() && lo <= hi <= buf.Length
      modifies this, r, buf
      ensures Valid() && r.closed == old(r.closed)
      ensures panicked <==> old(Panics()) && lo < hi
      ensures panicked ==> n == old(n) && err == old(err) && r.pos == old(r.pos) && buf[..] == old(buf[..])
      ensures !panicked && old(n) >= 0 ==> n >= 0 && (lo < hi ==> !Panics())
      ensures !panicked && old(n) >= 0 ==>
                0 <= k <= hi - lo && buf[..lo] == old(buf[..lo]) && old(Rest()) == buf[lo..lo + k] + Rest()
                  && End() == old(End())
      ensures !panicked && e != Nil && old(n) >= 0 ==> e == End() && Rest() == []
      ensures !panicked && e == Nil && lo < hi ==> r.Work() < old(r.Work())
      // until an error is reported, what was delivered and what remains add up to the limit
      ensures old(err) == Nil && e == Nil && !panicked ==> k + n == old(n) && r.pos == old(r.pos) + k
      // once reported, an error is reported for ever, with nothing read
      ensures old(err) != Nil ==> k == 0 && e == old(err) && r.pos == old(r.pos)
      ensures !panicked && e != Nil ==> err == e
      ensures old(err) == Nil && lo < hi && old(n) == -1 ==> k == -1 && e == TooLarge(max)
    {
      panicked := false;
      if err != Nil {
        return 0, err, false;
      }
      if hi == lo {
        return 0, Nil, false;
      }
      SliceBoundNegativeIff(n);
      var to := hi;
      if hi - lo > SliceBound(n) {
        if SliceBound(n) < 0 {
          return 0, Nil, true;
        }
        to := lo + SliceBound(n);
      }
      if to == lo {
        k, e := ReadNothing(buf, lo);
      } else {
        k, e := ReadUpToOneMore(buf, lo, to);
      }
    }

    /** The slice was cut to nothing. */
    method ReadNothing(buf: array<byte>, lo: nat) returns (k: int, e: Error)
      requires Valid() && err == Nil && n == -1 && lo <= buf.Length
      modifies this, r, buf
      ensures Valid() && r.closed == old(r.closed)
      ensures k == -1 && e == TooLarge(max) && err == e && n == 0
    {
      ghost var rest := r.Rest();
      var count;
      count, e := r.Read(buf, lo, lo);
      e := TooLarge(max);
      err := e;
      k := n;
      n := 0;
    }

    /** The part after the early returns: the slice has room for no more than one byte beyond the limit. */
    method ReadUpToOneMore(buf: array<byte>, lo: nat, to: nat) returns (k: nat, e: Error)
      requires Valid() && err == Nil && 0 <= n < MAX_INT64 && lo < to <= buf.Length && to - lo <= n + 1
      modifies this, r, buf
      ensures Valid() && r.closed == old(r.closed) && 0 <= n <= old(n)
      ensures k <= to - lo && buf[..lo] == old(buf[..lo]) && old(Rest()) == buf[lo..lo + k] + Rest()
              && End() == old(End())
      ensures e != Nil ==> e == End() && Rest() == [] && err == e
      ensures e == Nil ==> r.Work() < old(r.Work()) && k + n == old(n) && r.pos == old(r.pos) + k
    {
      ghost var rest := r.Rest();
      var count;
      count, e := r.Read(buf, lo, to);
      assert r.Rest() == rest[count..];
      ghost var read := buf[lo..lo + count];
      k, e := Account(count, e, rest);
      hide Deliverable, SliceBound, Min;
      assert buf[lo..lo + k] == read[..k] == rest[..k];
    }

    /** What is left of the limit, and the error, after `count` bytes of `rest` have been read. */
    method Account(count: nat, err0: Error, ghost rest: Bytes) returns (k: nat, e: Error)
      requires r.Valid() && err == Nil && 0 <= n < MAX_INT64 && count <= n + 1 && count <= |rest|
      requires r.Rest() == rest[count..] && (err0 != Nil ==> err0 == r.end && count == |rest|)
      modifies `n, `err
      ensures Valid() && 0 <= n <= old(n) && k <= count
      ensures Deliverable(rest, old(n)) == rest[..k] + Rest()
      ensures End() == if |rest| > old(n) then TooLarge(max) else r.end
      ensures e != Nil ==> e == End() && Rest() == [] && err == e
      ensures e == Nil ==> err0 == Nil && err == Nil && k == count && k + n == old(n)
    {
      if count <= n {
        DeliveredWithin(rest, n, count);
        k, e := count, err0;
        n := n - count;
        err := err0;
      } else {
        DeliveredAll(rest, rest[..count], n);
        assert rest[..count][..n] == rest[..n];
        e := TooLarge(max);
        err := e;
        k := n;
        n := 0;
      }
    }
  }

  /** What a reader with n bytes to go still delivers of a stream. */
  function Deliverable(rest: Bytes, n: nat): Bytes {
    rest[..Min(n, |rest|)]
  }

  lemma DeliveredWithin(rest: Bytes, n: nat, k: nat)
    requires k <= n && k <= |rest|
    ensures Deliverable(rest, n) == rest[..k] + Deliverable(rest[k..], n - k)
    ensures k == |rest| ==> Deliverable(rest, n) == rest[..k]
  {
  }

  lemma DeliveredAll(rest: Bytes, read: Bytes, n: nat)
    requires n < |rest| && read == rest[..n + 1]
    ensures Deliverable(rest, n) == read[..n]
  {
  }

  /** The io.Reader that ReadAll is given. */
  datatype Reader = Raw(source: Source) | Limited(reader: MaxBytesReader) {

    ghost function Footprint(): set<object> {
      match this
      case Raw(s) => {s}
      case Limited(l) => {l, l.r}
    }

    ghost function Source(): Source {
      match this
      case Raw(s) => s
      case Limited(l) => l.r
    }

    ghost predicate Valid()
      reads Footprint()
    {
      match this
      case Raw(s) => s.Valid()
      case Limited(l) => l.Valid() && l.n >= 0
    }

    ghost function Rest(): Bytes
      reads Footprint()
      requires Valid()
    {
      match this
      case Raw(s) => s.Rest()
      case Limited(l) => l.Rest()
    }

    ghost function End(): Error
      reads Footprint()
      requires Valid()
    {
      match this
      case Raw(s) => s.end
      case Limited(l) => l.End()
    }

    ghost predicate Panics()
      reads Footprint()
    {
      Limited? && reader.Panics()
    }

    method Read(buf: array<byte>, lo: nat, hi: nat) returns (n: nat, err: Error, panicked: bool)
      requires Valid() && lo < hi <= buf.Length
      modifies Footprint(), buf
      ensures Valid() && Source().closed == old(Source().closed)
      ensures panicked == old(Panics())
      ensures !panicked ==>
                && n <= hi - lo && buf[..lo] == old(buf[..lo]) && End() == old(End()) && !Panics()
                && buf[..lo + n] + Rest() == old(buf[..lo] + Rest())
                && (err != Nil ==> err == End() && Rest() == [])
                && (err == Nil ==> Source().Valid() && Source().Work() < old(Source().Work()))
    {
      match this
      case Raw(s) =>
        ghost var rest := s.Rest();
        panicked := false;
        n, err := s.Read(buf, lo, hi);
        assert rest == rest[..n] + rest[n..];
        Prepended(buf[..lo], buf[lo..lo + n], s.Rest());
        assert buf[..lo + n] == buf[..lo] + buf[lo..lo + n];
      case Limited(l) =>
        var k;
        k, err, panicked := l.Read(buf, lo, hi);
        n := 0;
        if !panicked {
          n := k;
          Prepended(buf[..lo], buf[lo..lo + n], l.Rest());
          assert buf[..lo + n] == buf[..lo] + buf[lo..lo + n];
        }
    }
  }

  lemma Prepended(a: Bytes, b: Bytes, c: Bytes)
    ensures a + (b + c) == (a + b) + c
  {
  }

  /** A larger buffer with the same content; append chooses how much larger. */
  method Grow(buf: array<byte>, len: nat, atLeast: nat) returns (r: array<byte>)
    requires len <= buf.Length < atLeast
    ensures fresh(r) && r.Length >= atLeast && r[..len] == buf[..len]
  {
    var size: nat :| size >= atLeast;
    r := new byte[size](_ => 0);
    for i := 0 to len
      invariant r[..i] == buf[..i]
    {
      r[i] := buf[i];
    }
  }

  /** One turn of a reading loop: makes room for at least `room` bytes and reads once. */
  method ReadOnce(r: Reader, b: array<byte>, len: nat, room: nat)
      returns (b': array<byte>, len': nat, e: Error, panicked: bool)
    requires r.Valid() && len <= b.Length && room > 0
    modifies r.Footprint(), b
    ensures (b' == b || fresh(b')) && len' <= b'.Length && panicked == old(r.Panics())
    ensures r.Valid() && r.Source().closed == old(r.Source().closed)
    ensures !panicked ==>
              && r.End() == old(r.End()) && !r.Panics()
              && b'[..len'] + r.Rest() == old(b[..len] + r.Rest())
              && (e != Nil ==> e == r.End() && r.Rest() == [])
              && (e == Nil ==> r.Source().Valid() && r.Source().Work() < old(r.Source().Work()))
  {
    b' := b;
    if b.Length < len + room {
      b' := Grow(b, len, len + room);
    }
    var n;
    n, e, panicked := r.Read(b', len, b'.Length);
    len' := if panicked then len else len + n;
  }

  /** ReadAllInitCap: the whole stream, and its error unless it is io.EOF, whatever the initial capacity, as long
      as make accepts that; maxAlloc is the largest one it does. */
  method ReadAllInitCap(r: Reader, initCap: int, maxAlloc: nat) returns (body: Bytes, err: Error, panicked: bool)
    requires r.Valid() && maxAlloc >= 512
    modifies r.Footprint()
    ensures panicked <==> initCap > maxAlloc || old(r.Panics())
    ensures !panicked ==> body == old(r.Rest()) && err == (if old(r.End()) == EOF then Nil else old(r.End()))
    ensures r.Source().closed == old(r.Source().closed)
  {
    var cap := if initCap <= 0 then 512 else initCap;
    if cap > maxAlloc {
      return [], Nil, true;
    }
    var b := new byte[cap](_ => 0);
    body, err, panicked := ReadLoop(r, b, 1);
  }

  /** ReadAllToBuffer into an emptied buffer that may have been used before: bytes.Buffer.ReadFrom keeps at
      least 512 bytes free for every Read. */
  method ReadAllToBuffer(r: Reader, buffer: array<byte>) returns (body: Bytes, err: Error, panicked: bool)
    requires r.Valid()
    modifies r.Footprint(), buffer
    ensures panicked == old(r.Panics())
    ensures !panicked ==> body == old(r.Rest()) && err == (if old(r.End()) == EOF then Nil else old(r.End()))
    ensures r.Source().closed == old(r.Source().closed)
  {
    body, err, panicked := ReadLoop(r, buffer, 512);
  }

  /** The loop both share: a full buffer, or one with less than `room` bytes free, is enlarged first. */
  method ReadLoop(r: Reader, buffer: array<byte>, room: nat) returns (body: Bytes, err: Error, panicked: bool)
    requires r.Valid() && room > 0
    modifies r.Footprint(), buffer
    ensures panicked == old(r.Panics())
    ensures !panicked ==> body == old(r.Rest()) && err == (if old(r.End()) == EOF then Nil else old(r.End()))
    ensures r.Source().closed == old(r.Source().closed)
  {
    ghost var rest, end, closed, first := r.Rest(), r.End(), r.Source().closed, r.Panics();
    var b, len: nat, e := buffer, 0, Nil;
    panicked := false;
    while e == Nil && !panicked
      invariant b == buffer || fresh(b)
      invariant len <= b.Length && r.Valid() && r.Source().Valid() && r.Source().closed == closed
      invariant panicked ==> first
      invariant !panicked ==> b[..len] + r.Rest() == rest && r.End() == end && (r.Panics() ==> first)
      invariant !panicked && first ==> r.Panics() && e == Nil
      invariant !panicked && e != Nil ==> e == end && r.Rest() == []
      decreases if e == Nil && !panicked then 1 else 0, r.Source().Work()
    {
      b, len, e, panicked := ReadOnce(r, b, len, room);
    }
    body, err := b[..len], if e == EOF then Nil else e;
  }

  /** The initial capacity taken from Content-Length; 0 means "none". */
  function InitCap(contentLength: Bytes, limit: int64): (c: nat)
    ensures limit > 0 ==> c <= limit
  {
    var n := Atoi(contentLength);
    if contentLength != [] && AtoiOk(contentLength) && n > 0 then
      if limit > 0 && n > limit then limit else n
    else 0
  }

  datatype Result = Ok(body: Bytes) | Err(error: Error) | Panic

  /** requestBodyReader.ReadAll: the body, exactly when the stream ends without an error and within the limit, for
      every limit but the largest, whose reader panics.  The way the stream is cut up, a reused buffer and
      Content-Length do not matter, except that without a positive limit nothing bounds the capacity taken from
      Content-Length, and more than make accepts panics. */
  method ReadAll(source: Source, limit: int64, contentLength: Bytes, pooled: array<byte>, maxAlloc: nat)
      returns (r: Result)
    requires source.Valid() && source.pos == 0 && maxAlloc >= 512
    modifies source, pooled
    ensures r == if limit == MAX_INT64 || InitCap(contentLength, limit) > maxAlloc then Panic
                 else if limit > 0 && |source.data| > limit then Err(TooLarge(limit))
                 else if source.end == EOF then Ok(source.data)
                 else Err(source.end)
    ensures source.closed
  {
    var rd := Raw(source);
    if limit > 0 {
      var limited := new MaxBytesReader(source, limit);
      SliceBoundNegativeIff(limit);
      rd := Limited(limited);
    }
    var initCap := InitCap(contentLength, limit);
    var body, err, panicked;
    if initCap > 0 {
      body, err, panicked := ReadAllInitCap(rd, initCap, maxAlloc);
    } else {
      body, err, panicked := ReadAllToBuffer(rd, pooled);
    }
    source.closed := true;
    r := if panicked then Panic else if err != Nil then Err(err) else Ok(body);
  }

  /** Without a positive limit some Content-Length asks for more than make accepts, whatever that is; with one,
      none asks for more than the limit. */
  lemma {:induction false} OnlyALimitBoundsTheCapacity(limit: int64, maxAlloc: nat)
    requires maxAlloc < MAX_INT64
    ensures (exists cl :: InitCap(cl, limit) > maxAlloc) <==> limit <= 0 || limit > maxAlloc
  {
    var cl := Digits(MAX_INT64);
    DigitsAreALength(MAX_INT64);
    hide Digits, Atoi, AtoiOk;
    assert limit <= 0 ==> InitCap(cl, limit) == MAX_INT64;
    assert limit > 0 ==> InitCap(cl, limit) == limit;
  }

  /** A Content-Length in digits is the capacity, cut to a positive limit. */
  lemma {:induction false} InitCapOfDigits(n: nat, limit: int64)
    requires n <= MAX_INT64
    ensures InitCap(Digits(n), limit) == if limit > 0 then Min(n, limit) else n
  {
    DigitsAreALength(n);
    hide Digits, Atoi, AtoiOk;
  }

  lemma {:induction false} DigitsAreALength(n: nat)
    requires n <= MAX_INT64
    ensures Atoi(Digits(n)) == n && AtoiOk(Digits(n))
  {
    AtoiOfDigits(n);
    DigitsRoundTrip(n);
    var s := Digits(n);
    hide Digits;
    assert s[0] in s;
    DigitRunOf(s, []);
    assert s + [] == s && s[..|s|] == s;
  }
}
