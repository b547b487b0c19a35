/** What reaches the client through edgeWriters. */
module WriterTheory {
  import opened Text
  import opened HttpHeader
  import opened Writers

  /** The connection at the bottom, without its record of calls. */
  function Wire(w: Writer): (c: Writer)
    ensures c.Conn? && c.calls == []
  {
    match w
    case Conn(_, _, _, _) => w.(calls := [])
    case Edge(inner, _, _, _, _, _) => Wire(inner)
  }

  /** Every edgeWriter in the stack belongs to a matched route, as for any writer a handler can get hold of. */
  ghost predicate Live(w: Writer) {
    match w
    case Conn(_, _, _, _) => true
    case Edge(inner, _, status, handled, headerWrote, _) =>
      handled && Live(inner) && if headerWrote then Wire(inner).sent.Some? else status == 0
  }

  // ---------------------------------------------------------------------------------------------
  // Transparency of handled writers

  /** What an operation does to the connection below. */
  ghost predicate Through(w: Writer, w': Writer, op: Op) {
    && Live(w')
    && Wire(w') == Wire(Do(Wire(w), op))
    && (Wire(w).sent.Some? ==> Wire(w').sent == Wire(w).sent)
  }

  lemma {:induction false} HeaderThrough(w: Writer, op: Op)
    requires Live(w) && HeaderOp(op)
    ensures Through(w, ChangeHeader(w, op), op)
    decreases Depth(w)
  {
    if w.Edge? { HeaderThrough(w.inner, op); }
  }

  lemma {:induction false} WriteHeaderThrough(w: Writer, code: Code)
    requires Live(w)
    ensures Through(w, DoWriteHeader(w, code), WriteHeader(code)) && Wire(DoWriteHeader(w, code)).sent.Some?
    decreases Depth(w)
  {
    if w.Edge? { WriteHeaderThrough(w.inner, code); }
  }

  lemma {:induction false} WriteThrough(w: Writer, data: Bytes)
    requires Live(w)
    ensures Through(w, DoWrite(w, data), Write(data)) && Wire(DoWrite(w, data)).sent.Some?
    decreases Depth(w)
  {
    if w.Edge? {
      if w.headerWrote {
        WriteThrough(w.inner, data);
      } else {
        WriteHeaderThrough(w.inner, OK);
        WriteThrough(DoWriteHeader(w.inner, OK), data);
      }
    }
  }

  lemma {:induction false} FlushThrough(w: Writer)
    requires Live(w)
    ensures Through(w, DoFlush(w), Flush) && Wire(DoFlush(w)).sent.Some?
    decreases Depth(w)
  {
    if w.Edge? {
      if w.headerWrote {
        FlushThrough(w.inner);
      } else {
        WriteHeaderThrough(w.inner, OK);
        FlushThrough(DoWriteHeader(w.inner, OK));
      }
    }
  }

  lemma OpThrough(w: Writer, op: Op)
    requires Live(w)
    ensures Through(w, Do(w, op), op)
  {
    match op
    case WriteHeader(code) => WriteHeaderThrough(w, code);
    case Write(data) => WriteThrough(w, data);
    case Flush => FlushThrough(w);
    case _ => HeaderThrough(w, op);
  }

  /** A client cannot tell how many matched routes, nested through Pass, its response went through: any
      operations on any stack of handled writers reach the connection as if made on it directly. */
  lemma {:induction false} HandledWritersAreTransparent(w: Writer, ops: seq<Op>)
    requires Live(w)
    ensures Live(DoAll(w, ops)) && Wire(DoAll(w, ops)) == DoAllWire(Wire(w), ops)
    decreases |ops|
  {
    if ops != [] {
      OpThrough(w, ops[0]);
      HandledWritersAreTransparent(Do(w, ops[0]), ops[1..]);
    }
  }

  /** The operations made directly on a connection. */
  function DoAllWire(c: Writer, ops: seq<Op>): (c': Writer)
    requires c.Conn?
    ensures c'.Conn?
    decreases |ops|
  {
    if ops == [] then c else DoAllWire(Wire(Do(c, ops[0])), ops[1..])
  }

  lemma {:induction false} DoAllWireConcat(c: Writer, a: seq<Op>, b: seq<Op>)
    requires c.Conn?
    ensures DoAllWire(c, a + b) == DoAllWire(DoAllWire(c, a), b)
    decreases |a|
  {
    if a == [] {
      assert a + b == b;
    } else {
      assert (a + b)[1..] == a[1..] + b;
      DoAllWireConcat(Wire(Do(c, a[0])), a[1..], b);
    }
  }

  // ---------------------------------------------------------------------------------------------
  // At most one WriteHeader, and nothing before it

  ghost predicate ProperCalls(calls: seq<Call>) {
    calls != [] && calls[0].HeaderCall? && forall i :: 1 <= i < |calls| ==> !calls[i].HeaderCall?
  }

  /** A stack of handled writers whose lowest one has just been acquired for this connection, or has sent its
      header to it. */
  ghost predicate Guards(w: Writer) {
    match w
    case Conn(_, _, _, _) => false
    case Edge(inner, _, status, handled, headerWrote, _) =>
      && handled
      && match inner
         case Conn(_, _, _, calls) => if headerWrote then ProperCalls(calls) else calls == [] && status == 0
         case Edge(_, _, _, _, _, _) => Guards(inner)
  }

  function Calls(w: Writer): seq<Call> {
    match w
    case Conn(_, _, _, calls) => calls
    case Edge(inner, _, _, _, _, _) => Calls(inner)
  }

  lemma ProperExtended(calls: seq<Call>, call: Call)
    requires ProperCalls(calls) && !call.HeaderCall?
    ensures ProperCalls(calls + [call])
  {
  }

  lemma {:induction false} GuardsWriteHeader(w: Writer, code: Code)
    requires Guards(w)
    ensures Guards(DoWriteHeader(w, code)) && DoWriteHeader(w, code).headerWrote
    decreases Depth(w)
  {
    if w.inner.Edge? && !w.headerWrote { GuardsWriteHeader(w.inner, code); }
  }

  /** An operation once the header is out, so that the call is passed on. */
  lemma {:induction false} GuardsPassedOn(w: Writer, op: Op)
    requires Guards(w) && w.headerWrote && (op.Write? || op.Flush?)
    ensures Guards(Do(w, op))
    decreases Depth(w), 0
  {
    match w.inner
    case Conn(_, _, _, calls) =>
      var call := if op.Write? then WriteCall else FlushCall;
      ProperExtended(calls, call);
      assert Do(w, op) == w.(inner := Do(w.inner, op)) && Do(w.inner, op).calls == calls + [call];
    case Edge(_, _, _, _, _, _) => GuardsOp(w.inner, op);
  }

  lemma {:induction false} GuardsHeaderOp(w: Writer, op: Op)
    requires Guards(w) && HeaderOp(op)
    ensures Guards(ChangeHeader(w, op))
    decreases Depth(w)
  {
    if w.inner.Edge? { GuardsHeaderOp(w.inner, op); }
  }

  lemma {:induction false} GuardsOp(w: Writer, op: Op)
    requires Guards(w)
    ensures Guards(Do(w, op))
    decreases Depth(w), 1
  {
    match op
    case WriteHeader(code) => GuardsWriteHeader(w, code);
    case Write(data) =>
      if !w.headerWrote {
        var code := if w.status == 0 then OK else AsCode(w.status);
        var w1 := DoWriteHeader(w, code);
        GuardsWriteHeader(w, code);
        GuardsPassedOn(w1, op);
        assert Do(w, op).inner == Do(w1, op).inner;
      } else {
        GuardsPassedOn(w, op);
      }
    case Flush =>
      if !w.headerWrote {
        var w1 := DoWriteHeader(w, OK);
        GuardsWriteHeader(w, OK);
        GuardsPassedOn(w1, op);
        assert Do(w, op).inner == Do(w1, op).inner;
      } else {
        GuardsPassedOn(w, op);
      }
    case _ => GuardsHeaderOp(w, op);
  }

  lemma {:induction false} GuardedCalls(w: Writer)
    requires Guards(w)
    ensures Calls(w) == [] || ProperCalls(Calls(w))
    decreases Depth(w)
  {
    if w.inner.Edge? { GuardedCalls(w.inner); }
  }

  lemma {:induction false} GuardsAll(w: Writer, ops: seq<Op>)
    requires Guards(w)
    ensures Guards(DoAll(w, ops))
    decreases |ops|
  {
    if ops != [] {
      GuardsOp(w, ops[0]);
      GuardsAll(Do(w, ops[0]), ops[1..]);
    }
  }

  /** Through handled writers, any sequence of operations makes at most one WriteHeader call on the
      connection, and no Write or Flush call before it. */
  lemma AtMostOneWriteHeader(w: Writer, ops: seq<Op>)
    requires Guards(w)
    ensures var calls := Calls(DoAll(w, ops)); calls == [] || ProperCalls(calls)
  {
    GuardsAll(w, ops);
    GuardedCalls(DoAll(w, ops));
  }

  // ---------------------------------------------------------------------------------------------
  // Buffering writers

  function HeaderAfter(h: Header, ops: seq<Op>): Header
    decreases |ops|
  {
    if ops == [] then h else HeaderAfter(ApplyHeader(h, ops[0]), ops[1..])
  }

  /** The status a buffering writer ends with: the last WriteHeader wins. */
  function LastStatus(status: int, ops: seq<Op>): int
    decreases |ops|
  {
    if ops == [] then status
    else
      LastStatus(match ops[0]
                 case WriteHeader(code) => code
                 case Write(_) => if status == 0 then OK else status
                 case _ => status, ops[1..])
  }

  function BodyAfter(body: Bytes, ops: seq<Op>): Bytes
    decreases |ops|
  {
    if ops == [] then body else BodyAfter(if ops[0].Write? then body + ops[0].data else body, ops[1..])
  }

  ghost predicate NoFlush(ops: seq<Op>) {
    forall op <- ops :: op != Flush
  }

  /** An unhandled writer keeps everything to itself. */
  lemma {:induction false} Buffers(w: Writer, ops: seq<Op>)
    requires w.Edge? && !w.handled && !w.headerWrote && NoFlush(ops)
    ensures var ew := DoAll(w, ops);
            && ew.Edge? && ew.inner == w.inner && !ew.handled && !ew.headerWrote
            && Collected(ew) == HeaderAfter(Collected(w), ops)
            && ew.status == LastStatus(w.status, ops)
            && ew.buf == BodyAfter(w.buf, ops)
    decreases |ops|
  {
    if ops != [] {
      assert ops[0] in ops;
      assert forall op <- ops[1..] :: op in ops;
      Buffers(Do(w, ops[0]), ops[1..]);
    }
  }

  // ---------------------------------------------------------------------------------------------
  // Dispatch, flattened

  /** What flushing a buffered response amounts to. */
  function Flushed(ops: seq<Op>): seq<Op> {
    var body := BodyAfter([], ops);
    [PutHeaders(HeaderAfter(map[], ops)), WriteHeader(AsCode(LastStatus(0, ops)))] +
    if body == [] then [] else [Write(body)]
  }

  /** The operations on the connection that a whole dispatch, with everything passed on in it, amounts to. */
  function Flattened(d: Dispatch): seq<Op>
    decreases d
  {
    match d
    case Refused(message) => [WriteHeader(SERVICE_UNAVAILABLE), Write(message)]
    case Accepted(_, Route(prog)) => FlattenedProg(prog)
    case Accepted(site, Answer(ops)) =>
      var status := LastStatus(0, ops);
      if status == METHOD_NOT_ALLOWED then
        var allow := First(HeaderAfter(map[], ops), ALLOW);
        (if allow != [] then [SetHeader(ALLOW, allow)] else []) + site.methodNotAllowed
      else if status == NOT_FOUND || status == 0 then site.notFound
      else Flushed(ops)
  }

  function FlattenedProg(prog: seq<Act>): seq<Op>
    decreases prog
  {
    if prog == [] then [] else FlattenedAct(prog[0]) + FlattenedProg(prog[1..])
  }

  function FlattenedAct(act: Act): seq<Op>
    decreases act
  {
    match act
    case Plain(op) => [op]
    case Pass(to) => Flattened(to)
  }

  /** The handlers inside the mux never flush. */
  ghost predicate MuxNeverFlushes(d: Dispatch)
    decreases d
  {
    match d
    case Refused(_) => true
    case Accepted(_, Route(prog)) => ProgNeverFlushes(prog)
    case Accepted(_, Answer(ops)) => NoFlush(ops)
  }

  ghost predicate ProgNeverFlushes(prog: seq<Act>)
    decreases prog
  {
    prog == [] || (ActNeverFlushes(prog[0]) && ProgNeverFlushes(prog[1..]))
  }

  ghost predicate ActNeverFlushes(act: Act)
    decreases act
  {
    act.Pass? ==> MuxNeverFlushes(act.to)
  }

  // ---------------------------------------------------------------------------------------------
  // Once handled, always handled

  /** The upper n writers are handled. */
  predicate HandledTo(w: Writer, n: nat)
    decreases n
  {
    if n == 0 then true else w.Edge? && w.handled && var less: nat := n - 1; HandledTo(w.inner, less)
  }

  lemma {:induction false} HeaderStaysHandled(w: Writer, op: Op, n: nat)
    requires HandledTo(w, n)
    ensures HandledTo(ChangeHeader(w, op), n)
    decreases n
  {
    if n > 0 {
      var less: nat := n - 1;
      HeaderStaysHandled(w.inner, op, less);
    }
  }

  lemma {:induction false} WriteHeaderStaysHandled(w: Writer, code: Code, n: nat)
    requires HandledTo(w, n)
    ensures HandledTo(DoWriteHeader(w, code), n)
    decreases n
  {
    if n > 0 {
      var less: nat := n - 1;
      WriteHeaderStaysHandled(w.inner, code, less);
    }
  }

  lemma {:induction false} WriteStaysHandled(w: Writer, data: Bytes, n: nat)
    requires HandledTo(w, n)
    ensures HandledTo(DoWrite(w, data), n)
    decreases n
  {
    if n > 0 {
      var less: nat := n - 1;
      var code := AsCode(if w.status == 0 then OK else w.status);
      WriteHeaderStaysHandled(w.inner, code, less);
      WriteStaysHandled(w.inner, data, less);
      WriteStaysHandled(DoWriteHeader(w.inner, code), data, less);
    }
  }

  lemma {:induction false} FlushStaysHandled(w: Writer, n: nat)
    requires HandledTo(w, n)
    ensures HandledTo(DoFlush(w), n)
    decreases n
  {
    if n > 0 {
      var less: nat := n - 1;
      WriteHeaderStaysHandled(w.inner, OK, less);
      FlushStaysHandled(w.inner, less);
      FlushStaysHandled(DoWriteHeader(w.inner, OK), less);
    }
  }

  lemma {:induction false} OpStaysHandled(w: Writer, op: Op, n: nat)
    requires HandledTo(w, n)
    ensures HandledTo(Do(w, op), n)
  {
    match op
    case WriteHeader(code) => WriteHeaderStaysHandled(w, code, n);
    case Write(data) => WriteStaysHandled(w, data, n);
    case Flush => FlushStaysHandled(w, n);
    case _ => HeaderStaysHandled(w, op, n);
  }

  lemma {:induction false} OpsStayHandled(w: Writer, ops: seq<Op>, n: nat)
    requires HandledTo(w, n)
    ensures HandledTo(DoAll(w, ops), n)
    decreases |ops|
  {
    if ops != [] {
      OpStaysHandled(w, ops[0], n);
      OpsStayHandled(Do(w, ops[0]), ops[1..], n);
    }
  }

  /** Operations on an unhandled writer leave those below it handled. */
  lemma {:induction false} BelowStaysHandled(w: Writer, ops: seq<Op>, n: nat)
    requires w.Edge? && !w.handled && HandledTo(w.inner, n)
    ensures var w' := DoAll(w, ops); w'.Edge? && !w'.handled && HandledTo(w'.inner, n)
    decreases |ops|
  {
    if ops != [] {
      FlushStaysHandled(w.inner, n);
      BelowStaysHandled(Do(w, ops[0]), ops[1..], n);
    }
  }

  lemma {:induction false} ConcludeStaysHandled(ew: Writer, site: Site, n: nat)
    requires ew.Edge? && HandledTo(ew.inner, n)
    ensures HandledTo(Conclude(ew, site), n)
  {
    var allow := SetHeader(ALLOW, First(Collected(ew), ALLOW));
    HeaderStaysHandled(ew.inner, allow, n);
    OpsStayHandled(ew.inner, site.methodNotAllowed, n);
    OpsStayHandled(ChangeHeader(ew.inner, allow), site.methodNotAllowed, n);
    OpsStayHandled(ew.inner, site.notFound, n);
    FlushKeepsBelow(ew, n);
    hide DoAll, ChangeHeader, FlushBuffered, HandledTo;
  }

  lemma {:induction false} FlushKeepsBelow(ew: Writer, n: nat)
    requires ew.Edge? && HandledTo(ew.inner, n)
    ensures HandledTo(FlushBuffered(ew).inner, n)
  {
    hide HandledTo, ChangeHeader, DoWriteHeader, DoWrite;
    var inner1 := if ew.hdr.Some? then ChangeHeader(ew.inner, PutHeaders(ew.hdr.value)) else ew.inner;
    if ew.hdr.Some? {
      HeaderStaysHandled(ew.inner, PutHeaders(ew.hdr.value), n);
    }
    WriteHeaderStaysHandled(inner1, AsCode(ew.status), n);
    var inner2 := if ew.headerWrote then inner1 else DoWriteHeader(inner1, AsCode(ew.status));
    WriteStaysHandled(inner2, ew.buf, n);
  }

  lemma {:induction false} ServeStaysHandled(w: Writer, d: Dispatch, n: nat)
    requires HandledTo(w, n)
    ensures HandledTo(Serve(w, d), n)
    decreases d
  {
    match d
    case Refused(message) =>
      WriteHeaderStaysHandled(w, SERVICE_UNAVAILABLE, n);
      WriteStaysHandled(DoWriteHeader(w, SERVICE_UNAVAILABLE), message, n);
    case Accepted(site, Route(prog)) =>
      var more := n + 1;
      var ew := MarkHandled(Acquired(w));
      assert HandledTo(ew, more);
      RouteStaysHandled(ew, prog, more);
    case Accepted(site, Answer(ops)) =>
      BelowStaysHandled(Acquired(w), ops, n);
      ConcludeStaysHandled(DoAll(Acquired(w), ops), site, n);
  }

  /** Whatever a route does with its writer, and whatever it passes on, the writer stays handled. */
  lemma {:induction false} RouteStaysHandled(w: Writer, prog: seq<Act>, n: nat)
    requires HandledTo(w, n)
    ensures HandledTo(RunRoute(w, prog), n)
    decreases prog
  {
    if prog != [] {
      ActStaysHandled(w, prog[0], n);
      RouteStaysHandled(Perform(w, prog[0]), prog[1..], n);
    }
  }

  lemma {:induction false} ActStaysHandled(w: Writer, act: Act, n: nat)
    requires HandledTo(w, n)
    ensures HandledTo(Perform(w, act), n)
    decreases act
  {
    match act
    case Plain(op) => OpStaysHandled(w, op, n);
    case Pass(to) => ServeStaysHandled(w, to, n);
  }

  /** A matched route, whatever status its own handlers send, never reaches a 404 or 405 handler: the writer is
      handled when the mux returns, so ServeHTTP does not look at its status, and the answer is the same whatever
      those handlers are. */
  lemma {:induction false} RouteNeverReachesTheSite(w: Writer, site: Site, other: Site, prog: seq<Act>)
    ensures RunMux(Acquired(w), Route(prog)).handled
    ensures Serve(w, Accepted(site, Route(prog))) == Serve(w, Accepted(other, Route(prog)))
  {
    RouteStaysHandled(MarkHandled(Acquired(w)), prog, 1);
  }

  // ---------------------------------------------------------------------------------------------
  // Dispatch is flattening

  ghost predicate ServesAs(w: Writer, w': Writer, ops: seq<Op>) {
    Live(w') && Wire(w') == DoAllWire(Wire(w), ops)
  }

  /** Dispatching a request, through any nesting of instances, answers it with exactly the flattened program:
      a matched route with its own operations and never with a 404 or 405 handler, a mux miss with the site's
      handler alone, and any other answer of the mux with that answer, buffered and then sent. */
  lemma {:induction false} DispatchIsFlattening(w: Writer, d: Dispatch)
    requires Live(w) && MuxNeverFlushes(d)
    ensures ServesAs(w, Serve(w, d), Flattened(d))
    decreases d
  {
    match d
    case Refused(message) =>
      var ops := [WriteHeader(SERVICE_UNAVAILABLE), Write(message)];
      HandledWritersAreTransparent(w, ops);
      assert DoAll(w, ops) == DoAll(Do(w, ops[0]), [Write(message)]) == Do(Do(w, ops[0]), Write(message));
    case Accepted(_, Route(prog)) =>
      var ew := MarkHandled(Acquired(w));
      RouteIsFlattening(ew, prog);
      RouteStaysHandled(ew, prog, 1);
    case Accepted(site, Answer(ops)) =>
      InternalIsFlattening(w, site, ops);
  }

  lemma {:induction false} RouteIsFlattening(w: Writer, prog: seq<Act>)
    requires Live(w) && ProgNeverFlushes(prog)
    ensures ServesAs(w, RunRoute(w, prog), FlattenedProg(prog))
    decreases prog
  {
    if prog != [] {
      var w1 := Perform(w, prog[0]);
      ActIsFlattening(w, prog[0]);
      RouteIsFlattening(w1, prog[1..]);
      DoAllWireConcat(Wire(w), FlattenedAct(prog[0]), FlattenedProg(prog[1..]));
    }
  }

  lemma {:induction false} ActIsFlattening(w: Writer, act: Act)
    requires Live(w) && ActNeverFlushes(act)
    ensures ServesAs(w, Perform(w, act), FlattenedAct(act))
    decreases act
  {
    match act
    case Plain(op) =>
      OpThrough(w, op);
      assert DoAllWire(Wire(w), [op]) == DoAllWire(Wire(Do(Wire(w), op)), [op][1..]);
    case Pass(to) => DispatchIsFlattening(w, to);
  }

  lemma InternalIsFlattening(w: Writer, site: Site, ops: seq<Op>)
    requires Live(w) && NoFlush(ops)
    ensures ServesAs(w, Serve(w, Accepted(site, Answer(ops))), Flattened(Accepted(site, Answer(ops))))
  {
    var ew := DoAll(Acquired(w), ops);
    Buffers(Acquired(w), ops);
    if ew.status == METHOD_NOT_ALLOWED {
      var allow := First(Collected(ew), ALLOW);
      HandledWritersAreTransparent(w, (if allow != [] then [SetHeader(ALLOW, allow)] else []) + site.methodNotAllowed);
      if allow != [] {
        assert ([SetHeader(ALLOW, allow)] + site.methodNotAllowed)[1..] == site.methodNotAllowed;
      } else {
        assert [] + site.methodNotAllowed == site.methodNotAllowed;
      }
    } else if ew.status == NOT_FOUND || ew.status == 0 {
      HandledWritersAreTransparent(w, site.notFound);
    } else {
      HandledWritersAreTransparent(w, Flushed(ops));
      FlushIsFlushed(w, ops);
    }
  }

  lemma FlushIsFlushed(w: Writer, ops: seq<Op>)
    requires Live(w) && NoFlush(ops)
    ensures FlushBuffered(DoAll(Acquired(w), ops)).inner == DoAll(w, Flushed(ops))
  {
    Buffers(Acquired(w), ops);
    var ew := DoAll(Acquired(w), ops);
    var h, status, body := HeaderAfter(map[], ops), WriteHeader(AsCode(LastStatus(0, ops))), BodyAfter([], ops);
    var w1 := ChangeHeader(w, PutHeaders(h));
    if ew.hdr.None? { NothingToPut(w); }
    var w2 := Do(w1, status);
    var last: seq<Op> := if body == [] then [] else [Write(body)];
    var all := Flushed(ops);
    assert all[1..] == [status] + last && all[1..][1..] == last;
    assert Do(w, all[0]) == w1;
    assert DoAll(w, all) == DoAll(w1, all[1..]) == DoAll(w2, last);
    assert DoAll(w2, last) == if body == [] then w2 else Do(w2, Write(body)) by {
      if body != [] { assert [Write(body)][1..] == []; }
    }
    assert ew.hdr.Some? ==> ew.hdr.value == h;
    assert FlushBuffered(ew).inner == if body == [] then w2 else DoWrite(w2, body);
  }

  lemma {:induction false} NothingToPut(w: Writer)
    requires Live(w)
    ensures ChangeHeader(w, PutHeaders(map[])) == w
    decreases Depth(w)
  {
    match w
    case Conn(h, _, _, _) => assert h + map[] == h;
    case Edge(inner, _, _, _, _, _) => NothingToPut(inner);
  }

  // ---------------------------------------------------------------------------------------------
  // The answers of the mux, by their status

  /** Changes of headers only. */
  ghost predicate OnlyHeaders(ops: seq<Op>) {
    forall op <- ops :: HeaderOp(op)
  }

  ghost predicate OnlyWrites(ops: seq<Op>) {
    forall op <- ops :: op.Write?
  }

  lemma {:induction false} WritesKeep(status: int, h: Header, ops: seq<Op>)
    requires OnlyWrites(ops) && status != 0
    ensures LastStatus(status, ops) == status && HeaderAfter(h, ops) == h && NoFlush(ops)
    decreases |ops|
  {
    if ops != [] {
      assert ops[0] in ops && forall op <- ops[1..] :: op in ops;
      WritesKeep(status, h, ops[1..]);
    }
  }

  /** Headers, a status, and a body: what is buffered of it. */
  lemma {:induction false} AnswerInOrder(h: Header, body: Bytes, headers: seq<Op>, code: Code, writes: seq<Op>)
    requires OnlyHeaders(headers) && OnlyWrites(writes)
    ensures var ops := headers + ([WriteHeader(code)] + writes);
            && LastStatus(0, ops) == code && HeaderAfter(h, ops) == HeaderAfter(h, headers) && NoFlush(ops)
            && BodyAfter(body, ops) == BodyAfter(body, writes)
    decreases |headers|
  {
    var ops := headers + ([WriteHeader(code)] + writes);
    if headers == [] {
      assert ops == [WriteHeader(code)] + writes && ops[1..] == writes;
      WritesKeep(code, h, writes);
    } else {
      assert headers[0] in headers && forall op <- headers[1..] :: op in headers;
      assert ops[0] == headers[0] && ops[1..] == headers[1..] + ([WriteHeader(code)] + writes);
      AnswerInOrder(ApplyHeader(h, headers[0]), body, headers[1..], code, writes);
    }
  }

  /** What the mux answers by itself with 404 is answered by the site's NotFoundHandler in its place, with 405 by the
      MethodNotAllowedHandler, which is given the Allow of the mux; any other answer is sent as it is. */
  lemma {:induction false} MuxAnswerByStatus(w: Writer, site: Site, headers: seq<Op>, code: Code, writes: seq<Op>)
    requires Live(w) && OnlyHeaders(headers) && OnlyWrites(writes)
    ensures var w' := Serve(w, Accepted(site, Answer(headers + ([WriteHeader(code)] + writes))));
            var c, c', collected := Wire(w), Wire(w'), HeaderAfter(map[], headers);
            var allow := First(collected, Ascii("Allow"));
            && (code == 404 ==> c' == DoAllWire(c, site.notFound))
            && (code == 405 ==>
                  c' == DoAllWire(if allow == [] then c else c.(header := c.header[Ascii("Allow") := [allow]]),
                                  site.methodNotAllowed))
            && (code !in {404, 405} && c.sent.None? ==>
                  c'.sent == Some(Status(code, c.header + collected)) && c'.body == c.body + BodyAfter([], writes))
  {
    var ops := headers + ([WriteHeader(code)] + writes);
    var d := Accepted(site, Answer(ops));
    AnswerInOrder(map[], [], headers, code, writes);
    DispatchIsFlattening(w, d);
    hide Serve, LastStatus, HeaderAfter, BodyAfter, Live, NoFlush, Ascii;
    var c, allow := Wire(w), First(HeaderAfter(map[], headers), ALLOW);
    if code == 405 {
      var first: seq<Op> := if allow != [] then [SetHeader(ALLOW, allow)] else [];
      assert Flattened(d) == first + site.methodNotAllowed;
      DoAllWireConcat(c, first, site.methodNotAllowed);
      assert allow != [] ==> first[1..] == [];
    } else if code != 404 && c.sent.None? {
      FlushedWire(c, ops);
    }
  }

  /** A mux that sets no status has found nothing either. */
  lemma {:induction false} SilentMuxIsNotFound(w: Writer, site: Site, headers: seq<Op>)
    requires Live(w) && OnlyHeaders(headers)
    ensures Wire(Serve(w, Accepted(site, Answer(headers)))) == DoAllWire(Wire(w), site.notFound)
  {
    HeadersSetNoStatus(headers);
    DispatchIsFlattening(w, Accepted(site, Answer(headers)));
    hide Serve, LastStatus, Live;
  }

  lemma {:induction false} HeadersSetNoStatus(headers: seq<Op>)
    requires OnlyHeaders(headers)
    ensures LastStatus(0, headers) == 0 && NoFlush(headers)
    decreases |headers|
  {
    if headers != [] {
      assert headers[0] in headers && forall op <- headers[1..] :: op in headers;
      HeadersSetNoStatus(headers[1..]);
    }
  }

  /** An instance that is closing answers 503 with its message. */
  lemma {:induction false} RefusedIsUnavailable(w: Writer, message: Bytes)
    requires Live(w) && Wire(w).sent.None?
    ensures var c' := Wire(Serve(w, Refused(message)));
            c'.sent == Some(Status(503, Wire(w).header)) && c'.body == Wire(w).body + message
  {
    DispatchIsFlattening(w, Refused(message));
    var ops := [WriteHeader(503), Write(message)];
    assert ops[1..] == [Write(message)] && ops[1..][1..] == [];
    DirectWire(Wire(w), ops);
    assert BodyAfter(Wire(w).body, ops) == BodyAfter(Wire(w).body, ops[1..]) == BodyAfter(Wire(w).body + message, []);
    hide Serve, Live;
  }

  /** A flush goes through an unhandled writer, too: it makes the connection send what it has, while the answer that
      is buffered stays where it is. */
  lemma {:induction false} FlushPassesTheBuffer(w: Writer)
    requires w.Edge? && !w.handled && Live(w.inner)
    ensures var w' := DoFlush(w);
            && w'.Edge? && w' == w.(inner := w'.inner) && Wire(w') == Wire(Do(Wire(w), Flush))
  {
    FlushThrough(w.inner);
  }

  /** Marking a writer as handled moves the headers it has collected below, sends nothing, and forgets the rest. */
  lemma {:induction false} MarkingMovesHeaders(w: Writer)
    requires w.Edge? && !w.handled && Live(w.inner)
    ensures var w' := MarkHandled(w);
            && Live(w') && w'.status == 0 && w'.buf == [] && !w'.headerWrote && w'.hdr.None?
            && Wire(w') == Wire(w).(header := Wire(w).header + Collected(w))
  {
    if w.hdr.Some? {
      HeaderThrough(w.inner, PutHeaders(w.hdr.value));
    } else {
      assert Wire(w).header + map[] == Wire(w).header;
    }
  }

  // ---------------------------------------------------------------------------------------------
  // Whole requests

  lemma {:induction false} ServeKeepsGuards(w: Writer, d: Dispatch)
    requires Live(w) && Guards(w) && MuxNeverFlushes(d)
    ensures Live(Serve(w, d)) && Guards(Serve(w, d))
    decreases d
  {
    DispatchIsFlattening(w, d);
    match d
    case Refused(message) =>
      GuardsOp(w, WriteHeader(SERVICE_UNAVAILABLE));
      GuardsOp(DoWriteHeader(w, SERVICE_UNAVAILABLE), Write(message));
    case Accepted(_, Route(prog)) =>
      var ew := MarkHandled(Acquired(w));
      RouteKeepsGuards(ew, prog);
      RouteStaysHandled(ew, prog, 1);
    case Accepted(site, Answer(ops)) =>
      Buffers(Acquired(w), ops);
      FlushIsFlushed(w, ops);
      GuardsAll(w, Flushed(ops));
      GuardsAll(w, site.notFound);
      GuardsAll(w, site.methodNotAllowed);
      var allow := SetHeader(ALLOW, First(HeaderAfter(map[], ops), ALLOW));
      GuardsOp(w, allow);
      GuardsAll(Do(w, allow), site.methodNotAllowed);
  }

  /** The writer of a route stays stacked on the same writer as long as its handler runs. */
  lemma {:induction false} RouteKeepsGuards(w: Writer, prog: seq<Act>)
    requires w.Edge? && w.inner.Edge? && Live(w) && Guards(w) && ProgNeverFlushes(prog)
    ensures RunRoute(w, prog).inner.Edge? && Live(RunRoute(w, prog)) && Guards(RunRoute(w, prog))
    decreases prog
  {
    if prog != [] {
      ActKeepsGuards(w, prog[0]);
      RouteKeepsGuards(Perform(w, prog[0]), prog[1..]);
    }
  }

  lemma {:induction false} ActKeepsGuards(w: Writer, act: Act)
    requires Live(w) && Guards(w) && ActNeverFlushes(act)
    ensures Depth(Perform(w, act)) == Depth(w) && Live(Perform(w, act)) && Guards(Perform(w, act))
    decreases act
  {
    match act
    case Plain(op) =>
      OpThrough(w, op);
      GuardsOp(w, op);
    case Pass(to) => ServeKeepsGuards(w, to);
  }

  lemma {:induction false} RunKeepsGuards(w: Writer, prog: seq<Act>)
    requires Live(w) && Guards(w) && ProgNeverFlushes(prog)
    ensures Guards(RunRoute(w, prog))
    decreases prog
  {
    if prog != [] {
      ActKeepsGuards(w, prog[0]);
      RunKeepsGuards(Perform(w, prog[0]), prog[1..]);
    }
  }

  /** A matched route, whatever its handler does and whatever it passes on to other instances, makes at most
      one WriteHeader call on the connection, and no Write or Flush call before it. */
  lemma RoutedRequestSendsOneHeader(header: Header, site: Site, prog: seq<Act>)
    requires ProgNeverFlushes(prog)
    ensures var calls := Calls(Serve(Conn(header, None, [], []), Accepted(site, Route(prog))));
            calls == [] || ProperCalls(calls)
  {
    var w := MarkHandled(Acquired(Conn(header, None, [], [])));
    RunKeepsGuards(w, prog);
    RouteStaysHandled(w, prog, 1);
    GuardedCalls(RunRoute(w, prog));
  }

  // ---------------------------------------------------------------------------------------------
  // Buffering and then sending, against sending directly

  predicate Commits(op: Op) {
    op.WriteHeader? || op.Write?
  }

  /** The first operation that sends the header decides the status. */
  function FirstStatus(ops: seq<Op>): int
    decreases |ops|
  {
    if ops == [] then 0
    else
      match ops[0]
      case WriteHeader(code) => code
      case Write(_) => OK
      case _ => FirstStatus(ops[1..])
  }

  /** The header at that moment. */
  function HeaderAtCommit(h: Header, ops: seq<Op>): Header
    decreases |ops|
  {
    if ops == [] || Commits(ops[0]) then h else HeaderAtCommit(ApplyHeader(h, ops[0]), ops[1..])
  }

  lemma {:induction false} BodyAfterAppends(body: Bytes, ops: seq<Op>)
    ensures BodyAfter(body, ops) == body + BodyAfter([], ops)
    decreases |ops|
  {
    if ops != [] {
      var first := if ops[0].Write? then ops[0].data else [];
      var rest := ops[1..];
      BodyAfterAppends(body + first, rest);
      BodyAfterAppends(first, rest);
      assert body + [] == body && [] + first == first;
      assert BodyAfter([], ops) == BodyAfter(first, rest) && BodyAfter(body, ops) == BodyAfter(body + first, rest);
      assert (body + first) + BodyAfter([], rest) == body + (first + BodyAfter([], rest));
    }
  }

  /** Operations made directly on a connection that has sent nothing yet. */
  lemma {:induction false} DirectWire(c: Writer, ops: seq<Op>)
    requires c.Conn? && c.sent.None? && NoFlush(ops)
    ensures var c' := DoAllWire(c, ops);
            && c'.sent == (if FirstStatus(ops) == 0 then None
                           else Some(Status(AsCode(FirstStatus(ops)), HeaderAtCommit(c.header, ops))))
            && c'.body == BodyAfter(c.body, ops)
    decreases |ops|
  {
    if ops != [] {
      var rest := ops[1..];
      assert ops[0] in ops && forall op <- rest :: op in ops;
      var c1 := Wire(Do(c, ops[0]));
      if Commits(ops[0]) {
        SentStays(c1, rest);
      } else {
        DirectWire(c1, rest);
      }
    }
  }

  lemma {:induction false} SentStays(c: Writer, ops: seq<Op>)
    requires c.Conn? && c.sent.Some?
    ensures DoAllWire(c, ops).sent == c.sent && DoAllWire(c, ops).body == BodyAfter(c.body, ops)
    decreases |ops|
  {
    if ops != [] { SentStays(Wire(Do(c, ops[0])), ops[1..]); }
  }

  /** The buffered response, sent over such a connection. */
  lemma FlushedWire(c: Writer, ops: seq<Op>)
    requires c.Conn? && c.sent.None?
    ensures var c' := DoAllWire(c, Flushed(ops));
            && c'.sent == Some(Status(AsCode(LastStatus(0, ops)), c.header + HeaderAfter(map[], ops)))
            && c'.body == c.body + BodyAfter([], ops)
  {
    var body := BodyAfter([], ops);
    var put, status := PutHeaders(HeaderAfter(map[], ops)), WriteHeader(AsCode(LastStatus(0, ops)));
    var last: seq<Op> := if body == [] then [] else [Write(body)];
    var all := Flushed(ops);
    assert all[1..] == [status] + last && all[1..][1..] == last;
    var c2 := Wire(Do(Wire(Do(c, put)), status));
    assert DoAllWire(c, all) == DoAllWire(c2, last);
    if body != [] {
      assert [Write(body)][1..] == [];
      assert DoAllWire(c2, last) == DoAllWire(Wire(Do(c2, Write(body))), []);
    }
  }

  lemma {:induction false} StatusInRange(status: int, ops: seq<Op>)
    requires status == 0 || 100 <= status <= 999
    ensures LastStatus(status, ops) == 0 || 100 <= LastStatus(status, ops) <= 999
    ensures FirstStatus(ops) == 0 || 100 <= FirstStatus(ops) <= 999
    ensures FirstStatus(ops) != 0 || status != 0 ==> LastStatus(status, ops) != 0
    decreases |ops|
  {
    if ops != [] {
      StatusInRange(match ops[0]
                    case WriteHeader(code) => code
                    case Write(_) => if status == 0 then OK else status
                    case _ => status, ops[1..]);
    }
  }

  /** For a program of the mux that sends something: the client sees the same status line, header and body
      as if it had been run on the connection, exactly when its last status is its first one and the header
      it leaves in the end is the one it had when it first sent something. */
  lemma BufferedAsDirectIff(c: Writer, ops: seq<Op>)
    requires c.Conn? && c.sent.None? && NoFlush(ops) && FirstStatus(ops) != 0
    ensures var buffered, direct := DoAllWire(c, Flushed(ops)), DoAllWire(c, ops);
            && buffered.body == direct.body
            && (buffered.sent == direct.sent <==>
                  LastStatus(0, ops) == FirstStatus(ops)
                  && c.header + HeaderAfter(map[], ops) == HeaderAtCommit(c.header, ops))
  {
    DirectWire(c, ops);
    FlushedWire(c, ops);
    BodyAfterAppends(c.body, ops);
    StatusInRange(0, ops);
  }

  /** Headers are set first, then the header is sent, then the body. */
  ghost predicate Disciplined(ops: seq<Op>)
    decreases |ops|
  {
    ops != [] &&
    match ops[0]
    case SetHeader(_, _) => Disciplined(ops[1..])
    case PutHeaders(_) => Disciplined(ops[1..])
    case WriteHeader(_) => OnlyWrites(ops[1..])
    case Write(_) => OnlyWrites(ops[1..])
    case _ => false
  }

  lemma {:induction false} DisciplinedMeetsTheCondition(h: Header, m: Header, ops: seq<Op>)
    requires Disciplined(ops)
    ensures NoFlush(ops) && FirstStatus(ops) != 0 && LastStatus(0, ops) == FirstStatus(ops)
    ensures h + HeaderAfter(m, ops) == HeaderAtCommit(h + m, ops)
    decreases |ops|
  {
    var rest := ops[1..];
    assert ops == [ops[0]] + rest;
    match ops[0]
    case SetHeader(k, v) =>
      assert (h + m)[k := [v]] == h + m[k := [v]];
      DisciplinedMeetsTheCondition(h, m[k := [v]], rest);
    case PutHeaders(p) =>
      assert h + m + p == h + (m + p);
      DisciplinedMeetsTheCondition(h, m + p, rest);
    case WriteHeader(code) => WritesKeep(code, m, rest);
    case Write(_) => WritesKeep(OK, m, rest);
  }

  /** Programs that write in order are not changed by the buffering, whatever headers were set before them. */
  lemma DisciplinedIsUnchanged(c: Writer, ops: seq<Op>)
    requires c.Conn? && c.sent.None? && Disciplined(ops)
    ensures DoAllWire(c, Flushed(ops)).sent == DoAllWire(c, ops).sent
    ensures DoAllWire(c, Flushed(ops)).body == DoAllWire(c, ops).body
  {
    DisciplinedMeetsTheCondition(c.header, map[], ops);
    assert c.header + map[] == c.header;
    BufferedAsDirectIff(c, ops);
  }

  /** While unhandled, the last WriteHeader wins; on a connection the first does. */
  lemma LastWriteHeaderWins(c: Writer, first: Code, last: Code)
    requires c.Conn? && c.sent.None? && first != last
    ensures var ops := [WriteHeader(first), WriteHeader(last)];
            DoAllWire(c, Flushed(ops)).sent != DoAllWire(c, ops).sent
  {
    var ops := [WriteHeader(first), WriteHeader(last)];
    assert ops[1..] == [WriteHeader(last)] && ops[1..][1..] == [];
    assert LastStatus(0, ops) == LastStatus(first, [WriteHeader(last)]) == last;
    BufferedAsDirectIff(c, ops);
  }
}
