/** The response writers between a handler and the connection (route.go), as values.  EdgeWriters holds the
    objects that refine them. */
module Writers {
  import opened Text
  import opened HttpHeader

  /** net/http panics for any other code. */
  type Code = c: int | 100 <= c <= 999 witness 200

  const OK: Code := 200
  const NOT_FOUND: Code := 404
  const METHOD_NOT_ALLOWED: Code := 405
  const SERVICE_UNAVAILABLE: Code := 503

  /** What a handler does with an http.ResponseWriter. */
  datatype Op =
    | SetHeader(key: Bytes, value: Bytes)
    | AddHeader(key: Bytes, value: Bytes)
    | DelHeader(key: Bytes)
    | PutHeaders(values: Header)  // w.Header()[k] = vv for every k of a map
    | WriteHeader(code: Code)
    | Write(data: Bytes)
    | Flush

  datatype Call = HeaderCall(code: Code) | WriteCall | FlushCall

  datatype Status = Status(code: Code, header: Header)

  /** Conn is the writer of net/http: the header map, the status line and header once sent, the body, and the
      calls it has received.  Edge is an edgeWriter around another writer; hdr is None for nil. */
  datatype Writer =
    | Conn(header: Header, sent: Option<Status>, body: Bytes, calls: seq<Call>)
    | Edge(inner: Writer, hdr: Option<Header>, status: int, handled: bool, headerWrote: bool, buf: Bytes)

  /** How many edgeWriters are stacked on the connection. */
  function Depth(w: Writer): nat {
    match w
    case Conn(_, _, _, _) => 0
    case Edge(inner, _, _, _, _, _) => 1 + Depth(inner)
  }

  // ---------------------------------------------------------------------------------------------
  // Operations

  function ApplyHeader(h: Header, op: Op): Header {
    match op
    case SetHeader(k, v) => h[k := [v]]
    case AddHeader(k, v) => h[k := ValuesOf(h, k) + [v]]
    case DelHeader(k) => h - {k}
    case PutHeaders(m) => h + m
    case _ => h
  }

  predicate HeaderOp(op: Op) {
    op.SetHeader? || op.AddHeader? || op.DelHeader? || op.PutHeaders?
  }

  /** w.Header() followed by a change of the map it returns. */
  function ChangeHeader(w: Writer, op: Op): (w': Writer)
    ensures Depth(w') == Depth(w)
  {
    match w
    case Conn(h, _, _, _) => w.(header := ApplyHeader(h, op))
    case Edge(inner, hdr, _, handled, _, _) =>
      if handled then w.(inner := ChangeHeader(inner, op))
      else w.(hdr := Some(ApplyHeader(hdr.GetOr(map[]), op)))
  }

  function DoWriteHeader(w: Writer, code: Code): (w': Writer)
    ensures Depth(w') == Depth(w)
  {
    match w
    case Conn(h, sent, _, calls) =>
      w.(sent := if sent.None? then Some(Status(code, h)) else sent, calls := calls + [HeaderCall(code)])
    case Edge(inner, _, _, handled, headerWrote, _) =>
      if headerWrote then w
      else if handled then w.(status := code, headerWrote := true, inner := DoWriteHeader(inner, code))
      else w.(status := code)
  }

  function DoWrite(w: Writer, data: Bytes): (w': Writer)
    ensures Depth(w') == Depth(w)
    decreases Depth(w)
  {
    match w
    case Conn(h, sent, body, calls) =>
      w.(sent := if sent.None? then Some(Status(OK, h)) else sent, body := body + data, calls := calls + [WriteCall])
    case Edge(inner, _, status, handled, headerWrote, buf) =>
      var status' := if status == 0 then OK else status;
      if !handled then w.(status := status', buf := buf + data)
      else if headerWrote then w.(inner := DoWrite(inner, data))
      else w.(status := status', headerWrote := true, inner := DoWrite(DoWriteHeader(inner, AsCode(status')), data))
  }

  function AsCode(status: int): Code {
    if 100 <= status <= 999 then status else OK
  }

  function DoFlush(w: Writer): (w': Writer)
    ensures Depth(w') == Depth(w)
    decreases Depth(w)
  {
    match w
    case Conn(h, sent, _, calls) =>
      w.(sent := if sent.None? then Some(Status(OK, h)) else sent, calls := calls + [FlushCall])
    case Edge(inner, _, _, handled, headerWrote, _) =>
      if handled && !headerWrote then w.(status := OK, headerWrote := true, inner := DoFlush(DoWriteHeader(inner, OK)))
      else w.(inner := DoFlush(inner))
  }

  function Do(w: Writer, op: Op): (w': Writer)
    ensures Depth(w') == Depth(w)
  {
    match op
    case WriteHeader(code) => DoWriteHeader(w, code)
    case Write(data) => DoWrite(w, data)
    case Flush => DoFlush(w)
    case _ => ChangeHeader(w, op)
  }

  function DoAll(w: Writer, ops: seq<Op>): (w': Writer)
    ensures Depth(w') == Depth(w)
    decreases |ops|
  {
    if ops == [] then w else DoAll(Do(w, ops[0]), ops[1..])
  }

  /** acquireEdgeWriter. */
  function Acquired(inner: Writer): Writer {
    Edge(inner, None, 0, false, false, [])
  }

  function MarkHandled(w: Writer): (w': Writer)
    requires w.Edge?
    ensures w'.Edge? && w'.handled && Depth(w') == Depth(w)
  {
    if w.handled then w
    else
      var inner := if w.hdr.Some? then ChangeHeader(w.inner, PutHeaders(w.hdr.value)) else w.inner;
      Edge(inner, None, 0, true, false, [])
  }

  /** edgeWriter.flush, for a buffered response. */
  function FlushBuffered(w: Writer): (w': Writer)
    requires w.Edge?
    ensures w'.Edge? && Depth(w') == Depth(w)
  {
    var inner1 := if w.hdr.Some? then ChangeHeader(w.inner, PutHeaders(w.hdr.value)) else w.inner;
    var inner2 := if w.headerWrote then inner1 else DoWriteHeader(inner1, AsCode(w.status));
    var inner3 := if w.buf != [] then DoWrite(inner2, w.buf) else inner2;
    w.(inner := inner3, hdr := None, headerWrote := true)
  }

  // ---------------------------------------------------------------------------------------------
  // Dispatch

  /** The program of a NotFoundHandler and of a MethodNotAllowedHandler. */
  datatype Site = Site(notFound: seq<Op>, methodNotAllowed: seq<Op>)

  /** What one elton instance does with a request: it refuses it because it is closing, or hands it to its mux. */
  datatype Dispatch = Refused(message: Bytes) | Accepted(site: Site, mux: Mux)

  /** The mux picks a route, whose handlers run a program, or answers by itself with a program of its own. */
  datatype Mux = Route(prog: seq<Act>) | Answer(ops: seq<Op>)

  /** A step of a route: an operation on c.Response, or Context.Pass to another instance. */
  datatype Act = Plain(op: Op) | Pass(to: Dispatch)

  /** The header an unhandled edgeWriter has collected. */
  function Collected(w: Writer): Header
    requires w.Edge?
  {
    w.hdr.GetOr(map[])
  }

  /** Elton.ServeHTTP: the writer afterwards. */
  function Serve(w: Writer, d: Dispatch): (w': Writer)
    ensures Depth(w') == Depth(w)
    decreases d
  {
    match d
    case Refused(message) => DoWrite(DoWriteHeader(w, SERVICE_UNAVAILABLE), message)
    case Accepted(site, mux) => Conclude(RunMux(Acquired(w), mux), site)
  }

  /** mux.ServeHTTP on an edgeWriter: a route marks it as handled first. */
  function RunMux(ew: Writer, mux: Mux): (ew': Writer)
    requires ew.Edge?
    ensures Depth(ew') == Depth(ew)
    decreases mux
  {
    match mux
    case Route(prog) => RunRoute(MarkHandled(ew), prog)
    case Answer(ops) => DoAll(ew, ops)
  }

  /** The end of ServeHTTP: only a writer that no route has handled is looked into. */
  function Conclude(ew: Writer, site: Site): (w': Writer)
    requires ew.Edge?
    ensures Depth(w') + 1 == Depth(ew)
  {
    if ew.handled then ew.inner
    else if ew.status == METHOD_NOT_ALLOWED then
      var allow := First(Collected(ew), ALLOW);
      DoAll(if allow != [] then ChangeHeader(ew.inner, SetHeader(ALLOW, allow)) else ew.inner, site.methodNotAllowed)
    else if ew.status == NOT_FOUND || ew.status == 0 then DoAll(ew.inner, site.notFound)
    else FlushBuffered(ew).inner
  }

  function RunRoute(w: Writer, prog: seq<Act>): (w': Writer)
    ensures Depth(w') == Depth(w)
    decreases prog
  {
    if prog == [] then w
    else
      RunRoute(Perform(w, prog[0]), prog[1..])
  }

  function Perform(w: Writer, act: Act): (w': Writer)
    ensures Depth(w') == Depth(w)
    decreases act
  {
    match act
    case Plain(op) => Do(w, op)
    case Pass(to) => Serve(w, to)
  }
}
