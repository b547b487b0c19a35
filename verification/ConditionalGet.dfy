/** Conditional GET as the middlewares do it: tagging (middleware/etag.go), compressing (middleware/compress.go)
    and answering 304 (middleware/fresh.go). */
module ConditionalGet {
  import opened Text
  import opened HttpHeader
  import opened EntityTags
  import HeaderCodec

  // ---------------------------------------------------------------------------------------------
  // The middlewares, after Next has returned without an error

  const NOT_MODIFIED := 304

  datatype Verb = GET | HEAD | OtherVerb

  datatype Request = Request(verb: Verb, header: Header)

  predicate HasBody(r: Reply) {
    r.bodyBuffer.Some? && r.bodyBuffer.value != []
  }

  /** 0 stands for 200. */
  predicate Succeeded(r: Reply) {
    r.statusCode == 0 || 200 <= r.statusCode < 300
  }

  function WithETag(r: Reply, hash: Bytes -> Bytes): Reply {
    if HasBody(r) && First(r.header, ETAG) == [] && Succeeded(r) then
      r.(header := Put(r.header, ETAG, GenETag(r.bodyBuffer.value, hash)))
    else r
  }

  /** A compressor, for one request: the encoding it accepts for a body of some size (-1 for a reader), what it
      makes of a body at some level (None for an error), and whether piping a reader through it succeeds. */
  datatype Compressor = Compressor(
    accept: int -> Option<Bytes>,
    compress: (Bytes, Option<int>) -> Option<Bytes>,
    pipe: bool)

  /** What OnBeforeCompress makes of a response, and whether it returns an error. */
  datatype Hooked = Hooked(reply: Reply, failed: bool)

  datatype CompressConfig = CompressConfig(
    checker: Bytes -> bool,
    compressors: seq<Compressor>,
    dynamicLevel: Option<(nat, Bytes) -> int>,
    onBeforeCompress: Option<Reply -> Hooked>)

  /** How a middleware leaves a response: with an error, or committed because it has been sent. */
  datatype Outcome = Outcome(reply: Reply, failed: bool, committed: bool)

  function FirstAccepting(compressors: seq<Compressor>, size: int): (k: nat)
    ensures k <= |compressors| && (k < |compressors| ==> compressors[k].accept(size).Some?)
    ensures forall j :: 0 <= j < k ==> compressors[j].accept(size).None?
  {
    if compressors == [] || compressors[0].accept(size).Some? then 0
    else 1 + FirstAccepting(compressors[1..], size)
  }

  function Weakened(tag: Bytes): Bytes {
    if tag == [] || IsWeak(tag) then tag else WEAK + tag
  }

  function Filled(h: Header, encoding: Bytes): Header {
    var h1 := Put(h, CONTENT_ENCODING, encoding);
    var h2 := h1[VARY := ValuesOf(h1, VARY) + [ACCEPT_ENCODING]];
    if First(h2, ETAG) == [] || IsWeak(First(h2, ETAG)) then h2 else Put(h2, ETAG, Weakened(First(h2, ETAG)))
  }

  function LevelFor(c: CompressConfig, size: nat, encoding: Bytes): Option<int> {
    if c.dynamicLevel.Some? then Some(c.dynamicLevel.value(size, encoding)) else None
  }

  function Hook(c: CompressConfig, r: Reply): Hooked {
    if c.onBeforeCompress.Some? then c.onBeforeCompress.value(r) else Hooked(r, false)
  }

  function Compressed(c: CompressConfig, r: Reply): Outcome {
    if r.bodyBuffer.None? && !r.body.Reader? then Outcome(r, false, false)
    else if First(r.header, CONTENT_ENCODING) != [] || !c.checker(First(r.header, CONTENT_TYPE)) then
      Outcome(r, false, false)
    else if Hook(c, r).failed then Outcome(Hook(c, r).reply, true, false)
    else Encoded(c, Hook(c, r).reply, r.body.Reader?)
  }

  /** The first compressor that accepts does it all. */
  function Encoded(c: CompressConfig, r: Reply, reader: bool): Outcome {
    var body := r.bodyBuffer.GetOr([]);
    var size := if reader then -1 else |body|;
    var k := FirstAccepting(c.compressors, size);
    if k == |c.compressors| then Outcome(r, false, false) else EncodedBy(c, c.compressors[k], r, reader)
  }

  function EncodedBy(c: CompressConfig, compressor: Compressor, r: Reply, reader: bool): Outcome
    requires compressor.accept(if reader then -1 else |r.bodyBuffer.GetOr([])|).Some?
  {
    var body := r.bodyBuffer.GetOr([]);
    var encoding := compressor.accept(if reader then -1 else |body|).value;
    if reader then
      var piped := r.(header := Filled(r.header - {CONTENT_LENGTH}, encoding));
      if compressor.pipe then Outcome(piped.(body := NoBody), false, true) else Outcome(piped, true, false)
    else
      var data := compressor.compress(body, LevelFor(c, |body|, encoding));
      Outcome(if data.None? then r else r.(header := Filled(r.header, encoding), bodyBuffer := data), false, false)
  }

  predicate FreshFor(req: Request, h: Header, date: Bytes -> int) {
    Fresh(First(req.header, IF_MODIFIED_SINCE), First(req.header, IF_NONE_MATCH), First(req.header, CACHE_CONTROL),
          First(h, LAST_MODIFIED), First(h, ETAG), date)
  }

  function AsNotModified(r: Reply): Reply {
    Reply(r.header - {CONTENT_TYPE, CONTENT_LENGTH, TRANSFER_ENCODING, CONTENT_ENCODING}, NOT_MODIFIED, None, NoBody)
  }

  function Freshened(req: Request, r: Reply, date: Bytes -> int): Reply {
    if HasBody(r) && req.verb != OtherVerb && Succeeded(r) && FreshFor(req, r.header, date) then AsNotModified(r)
    else r
  }

  // ---------------------------------------------------------------------------------------------
  // What is promised of them, header by header

  /** Something to compress: a body, not yet encoded, of a type that is worth it. */
  predicate Eligible(c: CompressConfig, r: Reply) {
    && (r.bodyBuffer.Some? || r.body.Reader?)
    && First(r.header, CONTENT_ENCODING) == [] && c.checker(First(r.header, CONTENT_TYPE))
  }

  /** Compressor k is the first one that accepts a body of this size, under this encoding. */
  predicate Chosen(c: CompressConfig, size: int, k: nat, encoding: Bytes) {
    && k < |c.compressors| && c.compressors[k].accept(size) == Some(encoding)
    && forall j :: 0 <= j < k ==> c.compressors[j].accept(size).None?
  }

  /** The header names the encoding, says that it depends on Accept-Encoding, and has no strong tag; all else is as
      it was. */
  ghost predicate Relabelled(h: Header, h': Header, encoding: Bytes) {
    && ValuesOf(h', CONTENT_ENCODING) == (if encoding == [] then [] else [encoding])
    && ValuesOf(h', VARY) == ValuesOf(h, VARY) + [ACCEPT_ENCODING]
    && ValuesOf(h', ETAG) == (if First(h, ETAG) == [] || Ascii("W/") <= First(h, ETAG) then ValuesOf(h, ETAG)
                              else [Ascii("W/") + First(h, ETAG)])
    && forall x :: x !in {CONTENT_ENCODING, VARY, ETAG} ==> ValuesOf(h', x) == ValuesOf(h, x)
  }

  /** A buffered body of r is replaced by what the compressor makes of it, at the level for its size and encoding,
      or left alone if that fails. */
  ghost predicate BufferEncoded(c: CompressConfig, k: nat, encoding: Bytes, r: Reply, r': Reply)
    requires k < |c.compressors|
  {
    var body := r.bodyBuffer.GetOr([]);
    var level := if c.dynamicLevel.Some? then Some(c.dynamicLevel.value(|body|, encoding)) else None;
    match c.compressors[k].compress(body, level)
    case None => r' == r
    case Some(data) =>
      && r'.bodyBuffer == Some(data) && r'.statusCode == r.statusCode && r'.body == r.body
      && Relabelled(r.header, r'.header, encoding)
  }

  /** A reader is piped: its length is no longer declared, and once it has been sent the body is gone. */
  ghost predicate ReaderPiped(c: CompressConfig, k: nat, encoding: Bytes, r: Reply, r': Reply)
    requires k < |c.compressors|
  {
    && r'.bodyBuffer == r.bodyBuffer && r'.statusCode == r.statusCode
    && r'.body == (if c.compressors[k].pipe then NoBody else r.body)
    && Relabelled(r.header - {CONTENT_LENGTH}, r'.header, encoding)
  }

  /** What NewCompress makes of r. */
  ghost predicate Compresses(c: CompressConfig, r: Reply, r': Reply, failed: bool, sent: bool) {
    if !Eligible(c, r) then r' == r && !failed && !sent
    else if Hook(c, r).failed then r' == Hook(c, r).reply && failed && !sent
    else
      var r1, reader := Hook(c, r).reply, r.body.Reader?;
      var size := if reader then -1 else |r1.bodyBuffer.GetOr([])|;
      if forall compressor <- c.compressors :: compressor.accept(size).None? then r' == r1 && !failed && !sent
      else
        exists k: nat, encoding ::
          && Chosen(c, size, k, encoding)
          && if reader then failed == !c.compressors[k].pipe && sent == !failed && ReaderPiped(c, k, encoding, r1, r')
             else !failed && !sent && BufferEncoded(c, k, encoding, r1, r')
  }

  class Context {
    const request: Request
    var header: Header
    var statusCode: int
    var bodyBuffer: Option<Bytes>
    var body: Body
    var committed: bool

    constructor (request: Request, r: Reply)
      ensures Abs() == r && this.request == request && !committed
    {
      this.request := request;
      header, statusCode, bodyBuffer, body, committed := r.header, r.statusCode, r.bodyBuffer, r.body, false;
    }

    ghost function Abs(): Reply
      reads this
    {
      Reply(header, statusCode, bodyBuffer, body)
    }

    method SetHeader(key: Bytes, value: Bytes)
      modifies `header
      ensures header == Put(old(header), key, value)
    {
      if value == [] {
        header := header - {key};
        return;
      }
      header := header[key := [value]];
    }

    method CleanContent()
      modifies `header, `bodyBuffer, `body
      ensures header == old(header) - {CONTENT_TYPE, CONTENT_LENGTH, TRANSFER_ENCODING, CONTENT_ENCODING}
      ensures bodyBuffer == None && body == NoBody
    {
      SetHeader(CONTENT_TYPE, []);
      SetHeader(CONTENT_LENGTH, []);
      SetHeader(TRANSFER_ENCODING, []);
      SetHeader(CONTENT_ENCODING, []);
      body := NoBody;
      bodyBuffer := None;
    }

    /** Context.NotModified */
    method NotModified()
      modifies this
      ensures statusCode == 304 && bodyBuffer == None && body == NoBody
      ensures header == old(header) - {CONTENT_TYPE, CONTENT_LENGTH, TRANSFER_ENCODING, CONTENT_ENCODING}
      ensures Abs() == AsNotModified(old(Abs())) && committed == old(committed)
    {
      CleanContent();
      statusCode := NOT_MODIFIED;
    }

    /** NewETag */
    method AddETag(hash: Bytes -> Bytes)
      modifies this
      ensures var tagged := old(bodyBuffer).Some? && |old(bodyBuffer).value| > 0 && First(old(header), ETAG) == []
                            && (statusCode == 0 || 200 <= statusCode <= 299);
              header == if tagged then old(header)[ETAG := [GenETag(old(bodyBuffer).value, hash)]] else old(header)
      ensures statusCode == old(statusCode) && bodyBuffer == old(bodyBuffer) && body == old(body)
      ensures Abs() == WithETag(old(Abs()), hash) && committed == old(committed)
    {
      if bodyBuffer.None? || |bodyBuffer.value| == 0 || First(header, ETAG) != [] {
        return;
      }
      if statusCode != 0 && (statusCode < 200 || statusCode >= 300) {
        return;
      }
      var eTag := GenETag(bodyBuffer.value, hash);
      if eTag != [] {
        SetHeader(ETAG, eTag);
      }
    }

    method FillHeader(encoding: Bytes)
      modifies `header
      ensures Relabelled(old(header), header, encoding)
      ensures header == Filled(old(header), encoding)
    {
      FilledRelabels(header, encoding);
      SetHeader(CONTENT_ENCODING, encoding);
      header := header[VARY := ValuesOf(header, VARY) + [ACCEPT_ENCODING]];
      var etagValue := First(header, ETAG);
      if etagValue != [] {
        if !IsWeak(etagValue) {
          SetHeader(ETAG, WEAK + etagValue);
        }
      }
    }

    /** NewCompress */
    method Compress(config: CompressConfig) returns (failed: bool)
      modifies this
      ensures exists sent ::
                Compresses(config, old(Abs()), Abs(), failed, sent) && committed == (old(committed) || sent)
      ensures var o := Compressed(config, old(Abs()));
              Abs() == o.reply && failed == o.failed && committed == (old(committed) || o.committed)
    {
      CompressedDoes(config, Abs());
      hide Compresses;
      var isReaderBody := body.Reader?;
      if bodyBuffer.None? && !isReaderBody {
        return false;
      }
      if First(header, CONTENT_ENCODING) != [] {
        return false;
      }
      if !config.checker(First(header, CONTENT_TYPE)) {
        return false;
      }
      if config.onBeforeCompress.Some? {
        failed := RunHook(config.onBeforeCompress.value);
        if failed {
          return true;
        }
      }
      failed := Encode(config, isReaderBody);
    }

    method RunHook(hook: Reply -> Hooked) returns (failed: bool)
      modifies `header, `statusCode, `bodyBuffer, `body
      ensures Abs() == hook(old(Abs())).reply && failed == hook(old(Abs())).failed
    {
      var h := hook(Reply(header, statusCode, bodyBuffer, body));
      header, statusCode, bodyBuffer, body := h.reply.header, h.reply.statusCode, h.reply.bodyBuffer, h.reply.body;
      failed := h.failed;
    }

    method Encode(config: CompressConfig, isReaderBody: bool) returns (failed: bool)
      modifies this
      ensures var o := Encoded(config, old(Abs()), isReaderBody);
              Abs() == o.reply && failed == o.failed && committed == (old(committed) || o.committed)
    {
      var data := bodyBuffer.GetOr([]);
      var bodySize := if isReaderBody then -1 else |data|;
      failed := false;
      for k := 0 to |config.compressors|
        invariant Abs() == old(Abs()) && committed == old(committed) && !failed
        invariant FirstAccepting(config.compressors, bodySize) >= k
      {
        var compressor := config.compressors[k];
        if compressor.accept(bodySize).None? {
          continue;
        }
        assert FirstAccepting(config.compressors, bodySize) == k;
        failed := EncodeWith(config, compressor, isReaderBody);
        break;
      }
    }

    method EncodeWith(config: CompressConfig, compressor: Compressor, isReaderBody: bool) returns (failed: bool)
      requires compressor.accept(if isReaderBody then -1 else |bodyBuffer.GetOr([])|).Some?
      modifies this
      ensures var o := EncodedBy(config, compressor, old(Abs()), isReaderBody);
              Abs() == o.reply && failed == o.failed && committed == (old(committed) || o.committed)
    {
      var data := bodyBuffer.GetOr([]);
      if isReaderBody {
        var encoding := compressor.accept(-1).value;
        header := header - {CONTENT_LENGTH};
        FillHeader(encoding);
        if !compressor.pipe {
          return true;
        }
        committed := true;
        body := NoBody;
        return false;
      }
      var encoding := compressor.accept(|data|).value;
      var newBuf := compressor.compress(data, LevelFor(config, |data|, encoding));
      if newBuf.Some? {
        FillHeader(encoding);
        bodyBuffer := newBuf;
      }
      return false;
    }

    /** NewFresh */
    method Freshen(date: Bytes -> int)
      modifies this
      ensures if old(bodyBuffer).Some? && |old(bodyBuffer).value| > 0 && request.verb in {GET, HEAD}
                 && (old(statusCode) == 0 || 200 <= old(statusCode) <= 299) && FreshFor(request, old(header), date)
              then
                && statusCode == 304 && bodyBuffer == None && body == NoBody
                && header == old(header) - {CONTENT_TYPE, CONTENT_LENGTH, TRANSFER_ENCODING, CONTENT_ENCODING}
              else Abs() == old(Abs())
      ensures Abs() == Freshened(request, old(Abs()), date) && committed == old(committed)
    {
      if bodyBuffer.None? || |bodyBuffer.value| == 0 || statusCode == NOT_MODIFIED {
        return;
      }
      if request.verb != GET && request.verb != HEAD {
        return;
      }
      if statusCode != 0 && (statusCode < 200 || statusCode >= 300) {
        return;
      }
      var stillFresh := IsFresh(First(request.header, IF_MODIFIED_SINCE), First(request.header, IF_NONE_MATCH),
                            First(request.header, CACHE_CONTROL), First(header, LAST_MODIFIED), First(header, ETAG),
                            date);
      if stillFresh {
        NotModified();
      }
    }
  }

  lemma {:induction false} FilledRelabels(h: Header, encoding: Bytes)
    ensures Relabelled(h, Filled(h, encoding), encoding)
  {
    NamesDiffer();
    assert |VARY| == 4 && |CONTENT_ENCODING| == 16;
    var tag := First(h, ETAG);
    assert Ascii("W/") == WEAK;
    assert IsWeak(tag) <==> WEAK <= tag;
    hide IsWeak;
  }

  lemma {:induction false} EncodedByDoes(c: CompressConfig, k: nat, encoding: Bytes, r: Reply, reader: bool)
    requires k < |c.compressors|
    requires c.compressors[k].accept(if reader then -1 else |r.bodyBuffer.GetOr([])|) == Some(encoding)
    ensures var o := EncodedBy(c, c.compressors[k], r, reader);
            if reader then
              o.failed == !c.compressors[k].pipe && o.committed == !o.failed && ReaderPiped(c, k, encoding, r, o.reply)
            else !o.failed && !o.committed && BufferEncoded(c, k, encoding, r, o.reply)
  {
    FilledRelabels(r.header, encoding);
    FilledRelabels(r.header - {CONTENT_LENGTH}, encoding);
    NamesDiffer();
    assert |VARY| == 4 && |CONTENT_ENCODING| == 16 && |CONTENT_LENGTH| == 14;
    hide Filled;
  }

  lemma {:induction false} CompressedDoes(c: CompressConfig, r: Reply)
    ensures var o := Compressed(c, r); Compresses(c, r, o.reply, o.failed, o.committed)
  {
    hide EncodedBy, BufferEncoded, ReaderPiped, FirstAccepting;
    if Eligible(c, r) && !Hook(c, r).failed {
      var r1, reader := Hook(c, r).reply, r.body.Reader?;
      var size := if reader then -1 else |r1.bodyBuffer.GetOr([])|;
      var k := FirstAccepting(c.compressors, size);
      assert Compressed(c, r) == Encoded(c, r1, reader);
      if k < |c.compressors| {
        var encoding := c.compressors[k].accept(size).value;
        assert c.compressors[k] in c.compressors && Chosen(c, size, k, encoding);
        EncodedByDoes(c, k, encoding, r1, reader);
      }
    }
  }

  // ---------------------------------------------------------------------------------------------
  // The stack: Compress (any number) around Fresh around Compress (any number) around ETag around the handler

  /** The first one that fails ends it. */
  function AllCompressed(cs: seq<CompressConfig>, o: Outcome): Outcome
    decreases |cs|
  {
    if cs == [] || o.failed then o
    else
      var o1 := Compressed(cs[0], o.reply);
      AllCompressed(cs[1..], o1.(committed := o.committed || o1.committed))
  }

  /** What the stack makes of the handler's reply r. */
  function Respond(req: Request, r: Reply, hash: Bytes -> Bytes, date: Bytes -> int,
                   inner: seq<CompressConfig>, outer: seq<CompressConfig>): Outcome
  {
    var o := AllCompressed(inner, Outcome(WithETag(r, hash), false, false));
    AllCompressed(outer, if o.failed then o else o.(reply := Freshened(req, o.reply, date)))
  }

  /** No compressor turns a body into nothing, and no hook fails or touches status, tag or body. */
  ghost predicate Tame(cs: seq<CompressConfig>) {
    forall c <- cs :: NeverEmpty(c) && Discreet(c)
  }

  ghost predicate NeverEmpty(c: CompressConfig) {
    forall k, body, level :: 0 <= k < |c.compressors| ==> c.compressors[k].compress(body, level) != Some([])
  }

  ghost predicate Discreet(c: CompressConfig) {
    forall r :: KeepsAlive(r, Hook(c, r).reply) && !Hook(c, r).failed
  }

  predicate KeepsAlive(r: Reply, r': Reply) {
    && r'.statusCode == r.statusCode && First(r'.header, ETAG) == First(r.header, ETAG)
    && (HasBody(r) ==> HasBody(r')) && r'.body == r.body
  }

  /** The tag is t, strong or weak. */
  predicate Carries(h: Header, t: Bytes) {
    First(h, ETAG) == t || First(h, ETAG) == WEAK + t
  }

  lemma {:induction false} NamesDiffer()
    ensures ETAG !in {CONTENT_TYPE, CONTENT_LENGTH, TRANSFER_ENCODING, CONTENT_ENCODING, VARY}
  {
    assert |ETAG| == 4 && |CONTENT_TYPE| == 12 && |CONTENT_LENGTH| == 14 && |TRANSFER_ENCODING| == 17
           && |CONTENT_ENCODING| == 16;
    assert ETAG[0] == CharByte('E') && VARY[0] == CharByte('V');
  }

  lemma {:induction false} FilledTag(h: Header, encoding: Bytes)
    ensures First(Filled(h, encoding), ETAG) == Weakened(First(h, ETAG))
  {
    NamesDiffer();
    hide IsWeak;
    var h1 := Put(h, CONTENT_ENCODING, encoding);
    var h2 := h1[VARY := ValuesOf(h1, VARY) + [ACCEPT_ENCODING]];
    assert First(h2, ETAG) == First(h1, ETAG) == First(h, ETAG);
  }

  /** Compressing keeps the status, and the tag up to its strength. */
  lemma {:induction false} CompressedKeeps(c: CompressConfig, r: Reply, t: Bytes)
    requires t != [] && !IsWeak(t) && Carries(r.header, t) && !r.body.Reader? && NeverEmpty(c) && Discreet(c)
    ensures var o := Compressed(c, r);
            && !o.failed && !o.committed && o.reply.statusCode == r.statusCode && Carries(o.reply.header, t)
            && !o.reply.body.Reader? && (HasBody(r) ==> HasBody(o.reply))
            && (r.bodyBuffer.None? ==> o.reply == r)
  {
    IsWeakMarked(t);
    var r1 := Hook(c, r).reply;
    assert KeepsAlive(r, r1);
    var body := r1.bodyBuffer.GetOr([]);
    var k := FirstAccepting(c.compressors, |body|);
    if k < |c.compressors| {
      FilledTag(r1.header, c.compressors[k].accept(|body|).value);
    }
    hide IsWeak, FirstAccepting, Filled, Discreet;
  }

  lemma {:induction false} IsWeakMarked(t: Bytes)
    ensures IsWeak(WEAK + t) && Opaque(WEAK + t) == t
  {
    assert (WEAK + t)[..2] == WEAK && (WEAK + t)[2..] == t;
  }

  lemma {:induction false} AllCompressedKeeps(cs: seq<CompressConfig>, o: Outcome, t: Bytes)
    requires t != [] && !IsWeak(t) && Carries(o.reply.header, t) && !o.reply.body.Reader? && Tame(cs)
    requires !o.failed && !o.committed
    ensures var o' := AllCompressed(cs, o);
            && !o'.failed && !o'.committed && o'.reply.statusCode == o.reply.statusCode && Carries(o'.reply.header, t)
            && !o'.reply.body.Reader? && (HasBody(o.reply) ==> HasBody(o'.reply))
            && (o.reply.bodyBuffer.None? ==> o' == o)
    decreases |cs|
  {
    if cs != [] {
      assert cs[0] in cs && forall c <- cs[1..] :: c in cs;
      CompressedKeeps(cs[0], o.reply, t);
      var o1 := Compressed(cs[0], o.reply);
      assert AllCompressed(cs, o) == AllCompressed(cs[1..], o1);
      hide Compressed, Carries, AllCompressed;
      AllCompressedKeeps(cs[1..], o1, t);
    }
  }

  lemma {:induction false} FreshenedKeepsTag(req: Request, r: Reply, date: Bytes -> int)
    ensures First(Freshened(req, r, date).header, ETAG) == First(r.header, ETAG)
  {
    NamesDiffer();
  }

  /** A reply whose tag is left to the ETag middleware. */
  predicate Untagged(r: Reply, hash: Bytes -> Bytes) {
    && HasBody(r) && !r.body.Reader? && Succeeded(r) && First(r.header, ETAG) == []
    && Base64URL(hash(r.bodyBuffer.value))
  }

  /** Whatever was asked, the client sees the tag of the body, strong or weak; and the answer is a 304 without
      a body, or has a body and the handler's status, as Fresh decides on that tag. */
  lemma {:induction false} RespondDecides(req: Request, r: Reply, hash: Bytes -> Bytes, date: Bytes -> int,
                                          inner: seq<CompressConfig>, outer: seq<CompressConfig>)
      returns (h: Header)
    requires Untagged(r, hash) && Tame(inner) && Tame(outer)
    ensures var t := GenETag(r.bodyBuffer.value, hash);
            var o := Respond(req, r, hash, date, inner, outer);
            var a := o.reply;
            && !o.failed && !o.committed && Carries(h, t) && Carries(a.header, t)
            && if req.verb != OtherVerb && FreshFor(req, h, date)
               then a.statusCode == NOT_MODIFIED && a.bodyBuffer == None
               else a.statusCode == r.statusCode && HasBody(a)
  {
    var t := GenETag(r.bodyBuffer.value, hash);
    GeneratedIsEntityTag(r.bodyBuffer.value, hash);
    hide GenETag, IsWeak, FreshFor, Tame, Base64URL, EntityTag;
    var tagged := Outcome(WithETag(r, hash), false, false);
    assert First(tagged.reply.header, ETAG) == t;
    AllCompressedKeeps(inner, tagged, t);
    var o1 := AllCompressed(inner, tagged);
    FreshenedKeepsTag(req, o1.reply, date);
    var o2 := o1.(reply := Freshened(req, o1.reply, date));
    AllCompressedKeeps(outer, o2, t);
    h := o1.reply.header;
  }

  /** The conditional GET loop: a client that sends back the tag it was given, among any others, gets a 304. */
  lemma {:induction false} RevalidationIsNotModified(
      r: Reply, hash: Bytes -> Bytes, date: Bytes -> int,
      earlier: Request, inner1: seq<CompressConfig>, outer1: seq<CompressConfig>,
      req: Request, inner: seq<CompressConfig>, outer: seq<CompressConfig>,
      before: seq<Bytes>, left: Bytes, right: Bytes, after: seq<Bytes>)
    requires Untagged(r, hash) && Tame(inner1 + outer1) && Tame(inner + outer)
    requires forall c <- left + right :: HeaderCodec.SpaceByte(c)
    requires forall part <- before + after :: COMMA !in part
    requires var emitted := First(Respond(earlier, r, hash, date, inner1, outer1).reply.header, ETAG);
             First(req.header, IF_NONE_MATCH) == Join(before + [left + emitted + right] + after, COMMA)
    requires req.verb != OtherVerb
    requires First(req.header, IF_MODIFIED_SINCE) == [] && !NoCache(First(req.header, CACHE_CONTROL))
    ensures var a := Respond(req, r, hash, date, inner, outer).reply;
            a.statusCode == NOT_MODIFIED && a.bodyBuffer == None && Carries(a.header, GenETag(r.bodyBuffer.value, hash))
  {
    var t := GenETag(r.bodyBuffer.value, hash);
    var emitted := First(Respond(earlier, r, hash, date, inner1, outer1).reply.header, ETAG);
    TameParts(inner1, outer1);
    TameParts(inner, outer);
    var _ := RespondDecides(earlier, r, hash, date, inner1, outer1);
    var h := RespondDecides(req, r, hash, date, inner, outer);
    GeneratedIsEntityTag(r.bodyBuffer.value, hash);
    TagIsListed(t, emitted, First(h, ETAG), before, left, right, after);
  }

  lemma {:induction false} TameParts(a: seq<CompressConfig>, b: seq<CompressConfig>)
    requires Tame(a + b)
    ensures Tame(a) && Tame(b)
  {
    assert forall c <- a :: c in a + b;
    assert forall c <- b :: c in a + b;
  }

  /** A tag sent back in a list matches itself, whichever side has become weak. */
  lemma {:induction false} TagIsListed(t: Bytes, sent: Bytes, current: Bytes, before: seq<Bytes>, left: Bytes,
                                       right: Bytes, after: seq<Bytes>)
    requires |t| > 3 && !IsWeak(t) && forall c <- t :: c != COMMA && !HeaderCodec.SpaceByte(c)
    requires sent in {t, WEAK + t} && current in {t, WEAK + t}
    requires forall c <- left + right :: HeaderCodec.SpaceByte(c)
    requires forall part <- before + after :: COMMA !in part
    ensures var list := Join(before + [left + sent + right] + after, COMMA);
            list !in {[], STAR} && current != [] && Listed(list, current)
  {
    var part := left + sent + right;
    var parts := before + [part] + after;
    assert forall c <- sent :: c in t || c in WEAK;
    TrimPadded(left, sent, right);
    assert COMMA !in part by {
      assert forall c <- part :: c in left + right || c in sent;
    }
    assert forall p <- parts :: p == part || p in before + after;
    SplitJoin(parts, COMMA);
    IsWeakMarked(t);
    assert Matches(part, current);
    assert part in parts;
    var list := Join(parts, COMMA);
    ScanSeesEveryPart(list, current);
    ShortSplit(list);
    assert |part| > 3;
  }

  /** In general the answer to a list of entity tags is a 304 exactly when one of them has the opaque tag of
      the body; otherwise the body is served. */
  lemma {:induction false} NotModifiedIffTagListed(r: Reply, hash: Bytes -> Bytes, date: Bytes -> int, req: Request,
                                                   inner: seq<CompressConfig>, outer: seq<CompressConfig>)
    requires Untagged(r, hash) && Tame(inner) && Tame(outer) && req.verb != OtherVerb
    requires First(req.header, IF_MODIFIED_SINCE) == [] && !NoCache(First(req.header, CACHE_CONTROL))
    requires forall part <- Split(First(req.header, IF_NONE_MATCH), COMMA) :: EntityTag(HeaderCodec.TrimSpace(part))
    ensures var a := Respond(req, r, hash, date, inner, outer).reply;
            var t := GenETag(r.bodyBuffer.value, hash);
            if exists part <- Split(First(req.header, IF_NONE_MATCH), COMMA) :: Opaque(HeaderCodec.TrimSpace(part)) == t
            then a.statusCode == NOT_MODIFIED && a.bodyBuffer == None
            else a.statusCode == r.statusCode && HasBody(a)
  {
    var t, list := GenETag(r.bodyBuffer.value, hash), First(req.header, IF_NONE_MATCH);
    var h := RespondDecides(req, r, hash, date, inner, outer);
    var current := First(h, ETAG);
    GeneratedIsEntityTag(r.bodyBuffer.value, hash);
    IsWeakMarked(t);
    assert |current| > 3 && EntityTag(current) && Opaque(current) == t;
    ScanSeesEveryPart(list, current);
    forall part <- Split(list, COMMA) ensures Matches(part, current) <==> Opaque(HeaderCodec.TrimSpace(part)) == t {
      WeakMatchIsOpaqueEquality(HeaderCodec.TrimSpace(part), current);
    }
    if list in {[], STAR} {
      NotEntityTag(list);
    }
  }

  lemma {:induction false} ShortSplit(list: Bytes)
    ensures list in {[], STAR} ==> Split(list, COMMA) == [list]
  {
    if list in {[], STAR} {
      IndexByteAbsent(list, COMMA);
    }
  }

  lemma {:induction false} NotEntityTag(list: Bytes)
    requires list in {[], STAR}
    ensures exists part <- Split(list, COMMA) :: !EntityTag(HeaderCodec.TrimSpace(part))
  {
    ShortSplit(list);
    assert list in [list];
    assert HeaderCodec.TrimSpace(list) == list;
  }

  /** With If-Modified-Since a 304 takes two dates that can be read, of which that of the body is not the later;
      unless tags are listed as well, or no-cache is asked for, nothing more. */
  lemma {:induction false} NotModifiedByDate(req: Request, r: Reply, date: Bytes -> int)
    requires HasBody(r) && Succeeded(r) && req.verb != OtherVerb && First(req.header, IF_MODIFIED_SINCE) != []
    ensures var since, modified := First(req.header, IF_MODIFIED_SINCE), First(r.header, LAST_MODIFIED);
            var unmodified :=
              modified != [] && date(modified) != 0 && date(since) != 0 && date(modified) <= date(since);
            && (Freshened(req, r, date).statusCode == 304 ==> unmodified)
            && (First(req.header, IF_NONE_MATCH) in {[], STAR} && !NoCache(First(req.header, CACHE_CONTROL)) ==>
                  (Freshened(req, r, date).statusCode == 304 <==> unmodified))
  {
    hide NoCache, Listed;
  }

  /** With both, the tag and the dates have to agree. */
  lemma {:induction false} NotModifiedByDateAndTag(req: Request, r: Reply, date: Bytes -> int)
    requires HasBody(r) && Succeeded(r) && req.verb != OtherVerb && First(req.header, IF_MODIFIED_SINCE) != []
    requires EntityTag(First(r.header, ETAG)) && !NoCache(First(req.header, CACHE_CONTROL))
    requires forall part <- Split(First(req.header, IF_NONE_MATCH), COMMA) :: EntityTag(HeaderCodec.TrimSpace(part))
    ensures var since, modified := First(req.header, IF_MODIFIED_SINCE), First(r.header, LAST_MODIFIED);
            Freshened(req, r, date).statusCode == 304 <==>
            && modified != [] && date(modified) != 0 && date(since) != 0 && date(modified) <= date(since)
            && exists part <- Split(First(req.header, IF_NONE_MATCH), COMMA) ::
                 Opaque(HeaderCodec.TrimSpace(part)) == Opaque(First(r.header, ETAG))
  {
    var list, tag := First(req.header, IF_NONE_MATCH), First(r.header, ETAG);
    if list in {[], STAR} {
      NotEntityTag(list);
    }
    ScanSeesEveryPart(list, tag);
    forall part <- Split(list, COMMA)
      ensures Matches(part, tag) <==> Opaque(HeaderCodec.TrimSpace(part)) == Opaque(tag)
    {
      WeakMatchIsOpaqueEquality(HeaderCodec.TrimSpace(part), tag);
    }
    hide NoCache, Listed, Matches, Opaque, EntityTag;
  }

  /** A request with no-cache anywhere in its Cache-Control gets the body, whatever it has a copy of. */
  lemma {:induction false} NoCacheGetsTheBody(r: Reply, hash: Bytes -> Bytes, date: Bytes -> int, req: Request,
                                              inner: seq<CompressConfig>, outer: seq<CompressConfig>,
                                              parts: seq<Bytes>)
    requires Untagged(r, hash) && Tame(inner) && Tame(outer)
    requires First(req.header, CACHE_CONTROL) == Join(parts, COMMA)
    requires (forall part <- parts :: COMMA !in part) && exists part <- parts :: PaddedNoCache(part)
    ensures var a := Respond(req, r, hash, date, inner, outer).reply; a.statusCode == r.statusCode && HasBody(a)
  {
    NoCacheIff(parts);
    hide NoCache, PaddedNoCache;
    var h := RespondDecides(req, r, hash, date, inner, outer);
  }

  // ---------------------------------------------------------------------------------------------
  // The client gets the handler's body

  /** What a client obtains by undoing the Content-Encoding; `undo` stands for its decoders. */
  function Undone(r: Reply, undo: (Bytes, Bytes) -> Option<Bytes>): Option<Bytes> {
    if r.bodyBuffer.None? then None
    else if First(r.header, CONTENT_ENCODING) == [] then r.bodyBuffer
    else undo(First(r.header, CONTENT_ENCODING), r.bodyBuffer.value)
  }

  /** What a compressor makes of a body is undone by the decoder of the encoding it accepted. */
  ghost predicate Lossless(c: CompressConfig, undo: (Bytes, Bytes) -> Option<Bytes>) {
    forall k: nat, body: Bytes, level ::
      k < |c.compressors| && c.compressors[k].accept(|body|).Some? && c.compressors[k].compress(body, level).Some? ==>
        && c.compressors[k].accept(|body|).value != []
        && undo(c.compressors[k].accept(|body|).value, c.compressors[k].compress(body, level).value) == Some(body)
  }

  /** A hook that does not fail, and leaves the body and its encoding alone. */
  ghost predicate LeavesBody(c: CompressConfig) {
    forall r :: var h := Hook(c, r);
                && !h.failed && h.reply.bodyBuffer == r.bodyBuffer && h.reply.body == r.body
                && First(h.reply.header, CONTENT_ENCODING) == First(r.header, CONTENT_ENCODING)
  }

  ghost predicate AllLossless(cs: seq<CompressConfig>, undo: (Bytes, Bytes) -> Option<Bytes>) {
    forall c <- cs :: Lossless(c, undo) && LeavesBody(c)
  }

  /** The answer a still has the body of r, and says so if it is encoded on the way; or it is a 304. */
  ghost predicate Preserves(r: Reply, a: Reply, undo: (Bytes, Bytes) -> Option<Bytes>) {
    && !a.body.Reader?
    && (a.bodyBuffer.Some? ==> Undone(a, undo) == Undone(r, undo))
    && (a.bodyBuffer.None? && r.bodyBuffer.Some? ==> a.statusCode == 304)
    && (First(a.header, CONTENT_ENCODING) != [] && First(r.header, CONTENT_ENCODING) == [] ==>
          ACCEPT_ENCODING in ValuesOf(a.header, VARY))
  }

  lemma {:induction false} CompressedPreserves(c: CompressConfig, r: Reply, a: Reply,
                                               undo: (Bytes, Bytes) -> Option<Bytes>)
    requires Preserves(r, a, undo) && Lossless(c, undo) && LeavesBody(c)
    ensures var o := Compressed(c, a); !o.failed && !o.committed && Preserves(r, o.reply, undo)
  {
    CompressedDoes(c, a);
    var o, r1 := Compressed(c, a), Hook(c, a).reply;
    assert !Hook(c, a).failed && r1.bodyBuffer == a.bodyBuffer && r1.body == a.body
           && First(r1.header, CONTENT_ENCODING) == First(a.header, CONTENT_ENCODING);
    hide Compressed, Hook, LeavesBody;
    if Eligible(c, a) {
      var size := |a.bodyBuffer.value|;
      if !(forall compressor <- c.compressors :: compressor.accept(size).None?) {
        var k: nat, encoding :| Chosen(c, size, k, encoding) && BufferEncoded(c, k, encoding, r1, o.reply);
        var level := if c.dynamicLevel.Some? then Some(c.dynamicLevel.value(size, encoding)) else None;
        var data := c.compressors[k].compress(a.bodyBuffer.value, level);
        if data.Some? {
          assert encoding != [] && undo(encoding, data.value) == Some(a.bodyBuffer.value);
          assert ValuesOf(o.reply.header, VARY)[|ValuesOf(r1.header, VARY)|] == ACCEPT_ENCODING;
        }
      }
    }
  }

  lemma {:induction false} AllCompressedPreserves(cs: seq<CompressConfig>, r: Reply, o: Outcome,
                                                  undo: (Bytes, Bytes) -> Option<Bytes>)
    requires Preserves(r, o.reply, undo) && AllLossless(cs, undo) && !o.failed && !o.committed
    ensures var o' := AllCompressed(cs, o); !o'.failed && !o'.committed && Preserves(r, o'.reply, undo)
    decreases |cs|
  {
    if cs != [] {
      assert cs[0] in cs && forall c <- cs[1..] :: c in cs;
      CompressedPreserves(cs[0], r, o.reply, undo);
      var o1 := Compressed(cs[0], o.reply);
      assert AllCompressed(cs, o) == AllCompressed(cs[1..], o1);
      hide Compressed, AllCompressed, Preserves, Lossless, LeavesBody;
      AllCompressedPreserves(cs[1..], r, o1, undo);
    }
  }

  /** Through any stack of Compress, Fresh and ETag: an answer with a body has the handler's body, once its
      Content-Encoding is undone, an encoding that was put on the way is announced by Vary, and the body of a
      response is left out only with a 304. */
  lemma {:induction false} RespondPreserves(req: Request, r: Reply, hash: Bytes -> Bytes, date: Bytes -> int,
                                            inner: seq<CompressConfig>, outer: seq<CompressConfig>,
                                            undo: (Bytes, Bytes) -> Option<Bytes>)
    requires !r.body.Reader? && AllLossless(inner, undo) && AllLossless(outer, undo)
    ensures var o := Respond(req, r, hash, date, inner, outer);
            && !o.failed && !o.committed
            && (o.reply.bodyBuffer.Some? ==> Undone(o.reply, undo) == Undone(r, undo))
            && (o.reply.bodyBuffer.None? && r.bodyBuffer.Some? ==> o.reply.statusCode == 304)
            && (First(o.reply.header, CONTENT_ENCODING) != [] && First(r.header, CONTENT_ENCODING) == [] ==>
                  ACCEPT_ENCODING in ValuesOf(o.reply.header, VARY))
  {
    NamesDiffer();
    assert |VARY| == 4 && |CONTENT_ENCODING| == 16 && |CONTENT_LENGTH| == 14 && |CONTENT_TYPE| == 12
           && |TRANSFER_ENCODING| == 17;
    hide FreshFor, GenETag, AllLossless;
    var tagged := Outcome(WithETag(r, hash), false, false);
    assert Preserves(r, tagged.reply, undo);
    AllCompressedPreserves(inner, r, tagged, undo);
    var o1 := AllCompressed(inner, tagged);
    var o2 := o1.(reply := Freshened(req, o1.reply, date));
    assert Preserves(r, o2.reply, undo);
    AllCompressedPreserves(outer, r, o2, undo);
  }
}
