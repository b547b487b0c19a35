/** The end of the route function of Handle (elton.go): what is sent once the chain has returned, and what
    becomes of a reader body (context.go). */
module RouteFinish {
  import opened Text
  import opened Decimal
  import opened HttpHeader
  import opened Writers
  import opened WriterTheory

  /** A body that is an io.Reader: the pieces it will deliver, and whether it is an io.Closer. */
  class Stream {
    const chunks: seq<Bytes>
    const closer: bool
    var closed: nat
    var consumed: bool

    constructor (chunks: seq<Bytes>, closer: bool)
      ensures this.chunks == chunks && this.closer == closer && closed == 0 && !consumed
    {
      this.chunks, this.closer, closed, consumed := chunks, closer, 0, false;
    }

    method Close()
      requires closer
      modifies `closed
      ensures closed == old(closed) + 1
    {
      closed := closed + 1;
    }
  }

  datatype BodyObject = NilBody | FromReader(reader: Stream) | OtherBody(id: nat)

  /** What the chain returned: an error carries the status and the message it is answered with. */
  datatype Outcome = Ok | Err(status: Code, message: Bytes)

  function Writes(chunks: seq<Bytes>): seq<Op> {
    if chunks == [] then [] else [Write(chunks[0])] + Writes(chunks[1..])
  }

  function Joined(chunks: seq<Bytes>): Bytes {
    if chunks == [] then [] else chunks[0] + Joined(chunks[1..])
  }

  /** Elton.error clears four headers first. */
  function Clearing(): seq<Op> {
    [DelHeader(ETAG), DelHeader(LAST_MODIFIED), DelHeader(CONTENT_ENCODING), DelHeader(CONTENT_LENGTH)]
  }

  /** What is sent in answer to an error; None is the missing ErrorHandler. */
  function ErrorOps(err: Outcome, errorHandler: Option<seq<Op>>): seq<Op>
    requires err.Err?
  {
    Clearing() + match errorHandler
                 case Some(ops) => ops
                 case None => [WriteHeader(err.status), Write(err.message)]
  }

  function HeadOps(statusCode: int, bodyBuffer: Option<Bytes>): seq<Op>
    requires statusCode == 0 || 100 <= statusCode <= 999
  {
    (if bodyBuffer.Some? then [SetHeader(CONTENT_LENGTH, Digits(|bodyBuffer.value|))] else []) +
    (if statusCode != 0 then [WriteHeader(statusCode)] else [])
  }

  class Context {
    var response: Writer
    var committed: bool
    var statusCode: int
    var body: BodyObject
    var bodyBuffer: Option<Bytes>

    constructor (response: Writer)
      ensures this.response == response && !committed && statusCode == 0 && body == NilBody && bodyBuffer == None
    {
      this.response, committed, statusCode, body, bodyBuffer := response, false, 0, NilBody, None;
    }

    /** closeReaderBody */
    method CloseReaderBody()
      modifies `body, if body.FromReader? then {body.reader} else {}
      ensures old(body).FromReader? && old(body).reader.closer ==> body == NilBody
      ensures !(old(body).FromReader? && old(body).reader.closer) ==> body == old(body)
      ensures old(body).FromReader? ==>
                && old(body).reader.closed == old(body.reader.closed) + (if old(body).reader.closer then 1 else 0)
                && old(body).reader.consumed == old(body.reader.consumed)
    {
      if !body.FromReader? {
        return;
      }
      if body.reader.closer {
        body.reader.Close();
        body := NilBody;
      }
    }

    /** Pipe: io.Copy writes what the reader delivers, piece by piece; then the reader is closed. */
    method Pipe(r: Stream)
      modifies `committed, `response, r
      ensures committed && response == DoAll(old(response), Writes(r.chunks))
      ensures r.consumed && r.closed == old(r.closed) + (if r.closer then 1 else 0)
    {
      committed := true;
      r.consumed := true;
      ghost var before := response;
      assert r.chunks[0..] == r.chunks;
      for k := 0 to |r.chunks|
        invariant committed && r.consumed && r.closed == old(r.closed)
        invariant DoAll(response, Writes(r.chunks[k..])) == DoAll(before, Writes(r.chunks))
      {
        assert r.chunks[k..][1..] == r.chunks[k + 1..];
        var op := Write(r.chunks[k]);
        assert Writes(r.chunks[k..]) == [op] + Writes(r.chunks[k + 1..]);
        assert ([op] + Writes(r.chunks[k + 1..]))[1..] == Writes(r.chunks[k + 1..]);
        response := Do(response, op);
      }
      if r.closer {
        r.Close();
      }
    }

    /** After c.Next() has returned. */
    method Finish(err: Outcome, errorHandler: Option<seq<Op>>)
      requires statusCode == 0 || 100 <= statusCode <= 999
      modifies this, if body.FromReader? then {body.reader} else {}
      ensures committed
      ensures response ==
              if old(committed) then old(response)
              else DoAll(old(response), FinishOps(old(Pieces()), old(statusCode), old(bodyBuffer), err, errorHandler))
      // an uncommitted reader body is closed once, whichever way it goes; a committed one is left to the handlers
      ensures old(body).FromReader? ==>
                old(body).reader.closed ==
                old(body.reader.closed) + (if !old(committed) && old(body).reader.closer then 1 else 0)
      // and is read only if it is what is sent
      ensures old(body).FromReader? && !old(body.reader.consumed) ==>
                (old(body).reader.consumed <==> !old(committed) && err.Ok? && old(bodyBuffer).None?)
    {
      if committed {
        return;
      }
      committed := true;
      if err.Err? {
        CloseReaderBody();
        Perform(ErrorOps(err, errorHandler));
        return;
      }
      if bodyBuffer.Some? {
        CloseReaderBody();
        Perform(HeadOps(statusCode, bodyBuffer) + [Write(bodyBuffer.value)]);
      } else {
        ghost var before := response;
        Perform(HeadOps(statusCode, bodyBuffer));
        if body.FromReader? {
          Pipe(body.reader);
          DoAllConcat(before, HeadOps(statusCode, bodyBuffer), Writes(body.reader.chunks));
        } else {
          assert HeadOps(statusCode, bodyBuffer) + [] == HeadOps(statusCode, bodyBuffer);
        }
      }
    }

    method Perform(ops: seq<Op>)
      modifies `response
      ensures response == DoAll(old(response), ops)
    {
      assert ops[0..] == ops;
      for k := 0 to |ops|
        invariant DoAll(response, ops[k..]) == DoAll(old(response), ops)
      {
        assert ops[k..][1..] == ops[k + 1..];
        response := Do(response, ops[k]);
      }
    }

    /** What the reader body would deliver. */
    ghost function Pieces(): Option<seq<Bytes>>
      reads `body
    {
      if body.FromReader? then Some(body.reader.chunks) else None
    }
  }

  /** All that is sent once an uncommitted chain has returned. */
  function FinishOps(pieces: Option<seq<Bytes>>, statusCode: int, bodyBuffer: Option<Bytes>, err: Outcome,
                     errorHandler: Option<seq<Op>>): seq<Op>
    requires statusCode == 0 || 100 <= statusCode <= 999
  {
    if err.Err? then ErrorOps(err, errorHandler)
    else
      HeadOps(statusCode, bodyBuffer) +
      match bodyBuffer
      case Some(b) => [Write(b)]
      case None => Writes(pieces.GetOr([]))
  }

  lemma {:induction false} DoAllConcat(w: Writer, a: seq<Op>, b: seq<Op>)
    ensures DoAll(w, a + b) == DoAll(DoAll(w, a), b)
    decreases |a|
  {
    if a == [] {
      assert a + b == b;
    } else {
      assert (a + b)[1..] == a[1..] + b;
      DoAllConcat(Do(w, a[0]), a[1..], b);
    }
  }

  // ---------------------------------------------------------------------------------------------
  // What the client sees

  /** Nothing has been sent through these handled writers. */
  ghost predicate Unsent(w: Writer) {
    Live(w) && Wire(w).sent.None? && Wire(w).body == []
  }

  lemma {:induction false} WireOf(w: Writer, ops: seq<Op>)
    requires Unsent(w) && NoFlush(ops)
    ensures var c := Wire(DoAll(w, ops));
            && c.sent == (if FirstStatus(ops) == 0 then None
                          else Some(Status(AsCode(FirstStatus(ops)), HeaderAtCommit(Wire(w).header, ops))))
            && c.body == BodyAfter([], ops)
  {
    HandledWritersAreTransparent(w, ops);
    DirectWire(Wire(w), ops);
  }

  /** The effect of one operation more, at the front. */
  lemma {:induction false} Ahead(op: Op, rest: seq<Op>, h: Header, body: Bytes)
    requires !op.Flush? && NoFlush(rest)
    ensures var ops := [op] + rest;
            && NoFlush(ops)
            && FirstStatus(ops)
               == (match op case WriteHeader(code) => code case Write(_) => OK case _ => FirstStatus(rest))
            && HeaderAtCommit(h, ops) == (if Commits(op) then h else HeaderAtCommit(ApplyHeader(h, op), rest))
            && BodyAfter(body, ops) == BodyAfter(if op.Write? then body + op.data else body, rest)
  {
    var ops := [op] + rest;
    assert ops[1..] == rest;
  }

  /** A buffered body is sent whole, with the status that was set and with its exact length, over whatever
      other length a handler had declared; through any number of instances. */
  lemma {:induction false} LengthIsExact(w: Writer, pieces: Option<seq<Bytes>>, statusCode: int, body: Bytes,
                                         errorHandler: Option<seq<Op>>)
    requires Unsent(w) && (statusCode == 0 || 100 <= statusCode <= 999)
    ensures var c := Wire(DoAll(w, FinishOps(pieces, statusCode, Some(body), Ok, errorHandler)));
            && c.sent.Some? && c.sent.value.code == (if statusCode == 0 then OK else statusCode)
            && c.sent.value.header == Wire(w).header[CONTENT_LENGTH := [Digits(|body|)]]
            && c.body == body && DigitsValue(c.sent.value.header[CONTENT_LENGTH][0]) == |c.body|
  {
    DigitsRoundTrip(|body|);
    var length := SetHeader(CONTENT_LENGTH, Digits(|body|));
    var h := Wire(w).header;
    var h1 := ApplyHeader(h, length);
    var last: seq<Op> := [Write(body)];
    var status: seq<Op> := if statusCode != 0 then [WriteHeader(statusCode)] else [];
    var ops := FinishOps(pieces, statusCode, Some(body), Ok, errorHandler);
    assert ops == [length] + (status + last);
    Ahead(Write(body), [], h1, []);
    assert last == [Write(body)] + [] && [] + body == body
           && status + last == if statusCode != 0 then status + last else last;
    hide Digits, DigitsValue, FinishOps, FirstStatus, HeaderAtCommit;
    if statusCode != 0 {
      Ahead(WriteHeader(statusCode), last, h1, []);
    }
    Ahead(length, status + last, h, []);
    WireOf(w, ops);
  }

  /** An error that no handler answered is answered with its status and message, and with none of the headers
      that described the abandoned body. */
  lemma {:induction false} ErrorAnswered(w: Writer, pieces: Option<seq<Bytes>>, statusCode: int,
                                         bodyBuffer: Option<Bytes>, err: Outcome)
    requires Unsent(w) && err.Err? && (statusCode == 0 || 100 <= statusCode <= 999)
    ensures var c := Wire(DoAll(w, FinishOps(pieces, statusCode, bodyBuffer, err, None)));
            && c.sent == Some(Status(err.status,
                                     Wire(w).header - {ETAG, LAST_MODIFIED, CONTENT_ENCODING, CONTENT_LENGTH}))
            && c.body == err.message
  {
    var h := Wire(w).header;
    var h1, h2, h3 := h - {ETAG}, h - {ETAG} - {LAST_MODIFIED}, h - {ETAG} - {LAST_MODIFIED} - {CONTENT_ENCODING};
    var h4 := h3 - {CONTENT_LENGTH};
    assert h4 == h - {ETAG, LAST_MODIFIED, CONTENT_ENCODING, CONTENT_LENGTH};
    var o5: seq<Op> := [Write(err.message)] + [];
    var o4 := [WriteHeader(err.status)] + o5;
    var o3 := [DelHeader(CONTENT_LENGTH)] + o4;
    var o2 := [DelHeader(CONTENT_ENCODING)] + o3;
    var o1 := [DelHeader(LAST_MODIFIED)] + o2;
    var ops := [DelHeader(ETAG)] + o1;
    assert FinishOps(pieces, statusCode, bodyBuffer, err, None) == ops;
    assert [] + err.message == err.message && BodyAfter(err.message, []) == err.message;
    hide FinishOps, FirstStatus, HeaderAtCommit, BodyAfter;
    Ahead(Write(err.message), [], h4, []);
    Ahead(WriteHeader(err.status), o5, h4, []);
    Ahead(DelHeader(CONTENT_LENGTH), o4, h3, []);
    Ahead(DelHeader(CONTENT_ENCODING), o3, h2, []);
    Ahead(DelHeader(LAST_MODIFIED), o2, h1, []);
    Ahead(DelHeader(ETAG), o1, h, []);
    WireOf(w, ops);
  }

  /** With an ErrorHandler it is that handler that answers, whatever the error: all it does reaches the client as if
      done on the connection without the four headers. */
  lemma {:induction false} ErrorHandlerAnswers(w: Writer, pieces: Option<seq<Bytes>>, statusCode: int,
                                               bodyBuffer: Option<Bytes>, err: Outcome, ops: seq<Op>)
    requires Live(w) && err.Err? && (statusCode == 0 || 100 <= statusCode <= 999)
    ensures var c := Wire(w);
            Wire(DoAll(w, FinishOps(pieces, statusCode, bodyBuffer, err, Some(ops)))) ==
            DoAllWire(c.(header := c.header - {ETAG, LAST_MODIFIED, CONTENT_ENCODING, CONTENT_LENGTH}), ops)
  {
    var all := FinishOps(pieces, statusCode, bodyBuffer, err, Some(ops));
    HandledWritersAreTransparent(w, all);
    var dels := [DelHeader(ETAG)] + ([DelHeader(LAST_MODIFIED)] + ([DelHeader(CONTENT_ENCODING)]
                + ([DelHeader(CONTENT_LENGTH)] + [])));
    assert all == dels + ops;
    hide FinishOps, Live;
    var c := Wire(w);
    var h1 := c.header - {ETAG} - {LAST_MODIFIED} - {CONTENT_ENCODING} - {CONTENT_LENGTH};
    assert h1 == c.header - {ETAG, LAST_MODIFIED, CONTENT_ENCODING, CONTENT_LENGTH};
    DoAllWireConcat(c, dels, ops);
    DelOnWire(c, ETAG,
              [DelHeader(LAST_MODIFIED)] + ([DelHeader(CONTENT_ENCODING)] + ([DelHeader(CONTENT_LENGTH)] + [])));
    DelOnWire(c.(header := c.header - {ETAG}), LAST_MODIFIED,
              [DelHeader(CONTENT_ENCODING)] + ([DelHeader(CONTENT_LENGTH)] + []));
    DelOnWire(c.(header := c.header - {ETAG} - {LAST_MODIFIED}), CONTENT_ENCODING, [DelHeader(CONTENT_LENGTH)] + []);
    DelOnWire(c.(header := c.header - {ETAG} - {LAST_MODIFIED} - {CONTENT_ENCODING}), CONTENT_LENGTH, []);
  }

  lemma {:induction false} DelOnWire(c: Writer, name: Bytes, rest: seq<Op>)
    requires c.Conn? && c.calls == []
    ensures DoAllWire(c, [DelHeader(name)] + rest) == DoAllWire(c.(header := c.header - {name}), rest)
  {
    assert ([DelHeader(name)] + rest)[1..] == rest;
  }

  /** A piped reader arrives whole, in order; without a body there is nothing but the status that was set. */
  lemma {:induction false} PipedWhole(w: Writer, pieces: Option<seq<Bytes>>, statusCode: int,
                                      errorHandler: Option<seq<Op>>)
    requires Unsent(w) && (statusCode == 0 || 100 <= statusCode <= 999)
    ensures var c := Wire(DoAll(w, FinishOps(pieces, statusCode, None, Ok, errorHandler)));
            var chunks := if pieces.Some? then pieces.value else [];
            && c.body == Joined(chunks)
            && c.sent == if statusCode == 0 && chunks == [] then None
                         else Some(Status(if statusCode == 0 then OK else statusCode, Wire(w).header))
  {
    var chunks := if pieces.Some? then pieces.value else [];
    var h, writes := Wire(w).header, Writes(chunks);
    var ops := FinishOps(pieces, statusCode, None, Ok, errorHandler);
    assert ops == (if statusCode == 0 then [] else [WriteHeader(statusCode)]) + writes;
    hide FinishOps, FirstStatus, HeaderAtCommit, BodyAfter, Writes, Joined;
    WritesAre(chunks, [], h);
    assert [] + Joined(chunks) == Joined(chunks);
    if statusCode == 0 {
      assert ops == writes;
    } else {
      Ahead(WriteHeader(statusCode), writes, h, []);
    }
    WireOf(w, ops);
  }

  lemma {:induction false} WritesAre(chunks: seq<Bytes>, body: Bytes, h: Header)
    ensures NoFlush(Writes(chunks)) && BodyAfter(body, Writes(chunks)) == body + Joined(chunks)
    ensures FirstStatus(Writes(chunks)) == (if chunks == [] then 0 else OK) && HeaderAtCommit(h, Writes(chunks)) == h
    decreases |chunks|
  {
    if chunks != [] {
      var rest := Writes(chunks[1..]);
      assert Writes(chunks) == [Write(chunks[0])] + rest && Writes(chunks)[1..] == rest;
      WritesAre(chunks[1..], body + chunks[0], h);
      assert body + chunks[0] + Joined(chunks[1..]) == body + (chunks[0] + Joined(chunks[1..]));
    }
  }
}
