/** edgeWriter as an object (route.go): fields updated in place, around a connection or around another
    edgeWriter.  Every method is proved to do what module Writers says. */
module EdgeWriters {
  import opened Text
  import opened HttpHeader
  import opened Writers

  /** The writer net/http hands to ServeHTTP. */
  class Connection {
    var header: Header
    var sent: Option<Status>
    var body: Bytes
    var calls: seq<Call>

    ghost function Abs(): Writer
      reads this
    {
      Conn(header, sent, body, calls)
    }

    method Apply(op: Op)
      modifies this
      ensures Abs() == Do(old(Abs()), op)
    {
      match op
      case WriteHeader(code) =>
        if sent.None? { sent := Some(Status(code, header)); }
        calls := calls + [HeaderCall(code)];
      case Write(data) =>
        if sent.None? { sent := Some(Status(OK, header)); }
        body, calls := body + data, calls + [WriteCall];
      case Flush =>
        if sent.None? { sent := Some(Status(OK, header)); }
        calls := calls + [FlushCall];
      case _ =>
        header := ApplyHeader(header, op);
    }
  }

  /** The http.ResponseWriter interface: a value of one of its two implementations. */
  datatype ResponseWriter = ToConn(conn: Connection) | ToEdge(edge: EdgeWriter) {

    ghost predicate Valid()
      reads Footprint(), if ToEdge? then edge.Repr else {}
      decreases if ToEdge? then edge.Repr else {}, 1
    {
      ToEdge? ==> edge.Valid()
    }

    ghost function Footprint(): set<object>
      reads if ToEdge? then {edge} else {}
    {
      match this
      case ToConn(c) => {c}
      case ToEdge(e) => {e} + e.Repr
    }

    ghost function Abs(): Writer
      reads Footprint(), if ToEdge? then edge.Repr else {}
      requires Valid()
      decreases if ToEdge? then edge.Repr else {}, 1
    {
      match this
      case ToConn(c) => c.Abs()
      case ToEdge(e) => e.Abs()
    }

    /** The writers below, from the top. */
    ghost function Chain(): seq<ResponseWriter>
      reads Footprint(), if ToEdge? then edge.Repr else {}
      requires Valid()
      decreases if ToEdge? then edge.Repr else {}, 1
    {
      if ToConn? then [] else edge.Chain()
    }

    method Apply(op: Op)
      requires Valid()
      modifies Footprint()
      ensures Footprint() == old(Footprint()) && Valid() && Abs() == Do(old(Abs()), op)
      ensures Chain() == old(Chain())
      decreases Footprint(), 4
    {
      match this
      case ToConn(c) => c.Apply(op);
      case ToEdge(e) => e.Apply(op);
    }
  }

  class EdgeWriter {
    var responseWriter: ResponseWriter
    var hdr: Option<Header>
    var status: int
    var handled: bool
    var headerWrote: bool
    var buf: Bytes
    ghost var Repr: set<object>

    ghost predicate Valid()
      reads this, Repr
      decreases Repr, 0
    {
      && this in Repr
      && match responseWriter
         case ToConn(c) => Repr == {this, c}
         case ToEdge(e) => e in Repr && this !in e.Repr && Repr == {this} + e.Repr && e.Valid()
    }

    ghost function Abs(): Writer
      reads this, Repr
      requires Valid()
      decreases Repr, 0
    {
      Edge(responseWriter.Abs(), hdr, status, handled, headerWrote, buf)
    }

    ghost function Chain(): seq<ResponseWriter>
      reads this, Repr
      requires Valid()
      decreases Repr, 0
    {
      [responseWriter] + responseWriter.Chain()
    }

    constructor (w: ResponseWriter)
      requires w.Valid()
      ensures Valid() && fresh(this) && Repr == {this} + w.Footprint() && responseWriter == w
      ensures Chain() == [w] + w.Chain()
      ensures Abs() == Acquired(w.Abs())
    {
      responseWriter, hdr, status, handled, headerWrote, buf := w, None, 0, false, false, [];
      Repr := {this} + w.Footprint();
    }

    method Apply(op: Op)
      requires Valid()
      modifies Repr
      ensures Valid() && Repr == old(Repr) && Chain() == old(Chain())
      ensures Abs() == Do(old(Abs()), op)
      decreases Repr, 3
    {
      match op
      case WriteHeader(code) => this.WriteHeader(code);
      case Write(data) => this.Write(data);
      case Flush => this.Flush();
      case _ => this.OnHeader(op);
    }

    /** A call on the writer below. */
    method Below(op: Op)
      requires Valid()
      modifies Repr
      ensures Valid() && Repr == old(Repr) && Chain() == old(Chain())
      ensures hdr == old(hdr) && status == old(status) && handled == old(handled)
      ensures headerWrote == old(headerWrote) && buf == old(buf)
      ensures Abs() == Edge(Do(old(responseWriter.Abs()), op), hdr, status, handled, headerWrote, buf)
      decreases Repr, 0
    {
      responseWriter.Apply(op);
    }

    /** ew.Header(), and the change of the map it returns. */
    method OnHeader(op: Op)
      requires Valid() && HeaderOp(op)
      modifies Repr
      ensures Valid() && Repr == old(Repr) && Chain() == old(Chain())
      ensures Abs() == ChangeHeader(old(Abs()), op)
      decreases Repr, 1
    {
      if handled {
        Below(op);
        return;
      }
      if hdr.None? {
        hdr := Some(map[]);
      }
      hdr := Some(ApplyHeader(hdr.value, op));
    }

    method WriteHeader(code: Code)
      requires Valid()
      modifies Repr
      ensures Valid() && Repr == old(Repr) && Chain() == old(Chain())
      ensures Abs() == DoWriteHeader(old(Abs()), code)
      decreases Repr, 1
    {
      if headerWrote {
        return;
      }
      status := code;
      if handled {
        headerWrote := true;
        Below(Op.WriteHeader(code));
      }
    }

    /** headerWrote = true; ResponseWriter.WriteHeader(code) */
    method Send(code: Code)
      requires Valid()
      modifies Repr
      ensures Valid() && Repr == old(Repr) && Chain() == old(Chain())
      ensures headerWrote && hdr == old(hdr) && status == old(status) && handled == old(handled) && buf == old(buf)
      ensures Abs() == Edge(DoWriteHeader(old(responseWriter.Abs()), code), hdr, status, handled, true, buf)
      decreases Repr, 1
    {
      headerWrote := true;
      Below(Op.WriteHeader(code));
    }

    method Write(data: Bytes)
      requires Valid()
      modifies Repr
      ensures Valid() && Repr == old(Repr) && Chain() == old(Chain())
      ensures Abs() == DoWrite(old(Abs()), data)
      decreases Repr, 2
    {
      hide DoWriteHeader, ChangeHeader, DoFlush;
      if handled {
        if !headerWrote {
          if status == 0 {
            status := OK;
          }
          Send(AsCode(status));
        }
        Below(Op.Write(data));
        return;
      }
      if status == 0 {
        status := OK;
      }
      buf := buf + data;
    }

    method Flush()
      requires Valid()
      modifies Repr
      ensures Valid() && Repr == old(Repr) && Chain() == old(Chain())
      ensures Abs() == DoFlush(old(Abs()))
      decreases Repr, 2
    {
      if handled && !headerWrote {
        this.WriteHeader(OK);
      }
      Below(Op.Flush);
    }

    /** Moves the collected headers, if any, to the writer below. */
    method PutCollected()
      requires Valid()
      modifies Repr
      ensures Valid() && Repr == old(Repr) && Chain() == old(Chain())
      ensures hdr.None? && status == old(status) && handled == old(handled) && headerWrote == old(headerWrote)
              && buf == old(buf)
      ensures var inner := old(responseWriter.Abs());
              Abs() == Edge(if old(hdr).Some? then ChangeHeader(inner, PutHeaders(old(hdr).value)) else inner,
                            None, status, handled, headerWrote, buf)
    {
      if hdr.Some? {
        Below(PutHeaders(hdr.value));
        hdr := None;
      }
    }

    method MarkHandled()
      requires Valid()
      modifies Repr
      ensures Valid() && Repr == old(Repr) && Chain() == old(Chain())
      ensures Abs() == Writers.MarkHandled(old(Abs()))
    {
      hide DoWriteHeader, DoWrite, ChangeHeader, DoFlush;
      if handled {
        return;
      }
      handled := true;
      PutCollected();
      buf, status, headerWrote := [], 0, false;
    }

    /** flush() */
    method FlushBuffer()
      requires Valid()
      modifies Repr
      ensures Valid() && Repr == old(Repr) && Chain() == old(Chain())
      ensures Abs() == FlushBuffered(old(Abs()))
    {
      hide DoWriteHeader, DoWrite, ChangeHeader, DoFlush;
      PutCollected();
      if !headerWrote {
        Send(AsCode(status));
      }
      if |buf| > 0 {
        Below(Op.Write(buf));
      }
    }

    /** acquireEdgeWriter on a recycled writer: whatever a previous request left in it is gone. */
    method Acquire(w: ResponseWriter)
      requires w.Valid() && this !in w.Footprint()
      modifies this
      ensures Valid() && Repr == {this} + w.Footprint() && responseWriter == w
      ensures w.Valid() && w.Footprint() == old(w.Footprint()) && w.Abs() == old(w.Abs()) && w.Chain() == old(w.Chain())
      ensures Abs() == Acquired(w.Abs()) && Chain() == [w] + w.Chain()
    {
      responseWriter, hdr, status, handled, headerWrote, buf := w, None, 0, false, false, [];
      Repr := {this} + w.Footprint();
    }
  }

  // ---------------------------------------------------------------------------------------------
  // The pool

  /** sync.Pool: it holds writers with arbitrary content, and may give out a new one at any time. */
  class Pool {
    var free: set<EdgeWriter>

    constructor ()
      ensures free == {}
    {
      free := {};
    }

    /** No pooled writer is in use below w. */
    ghost predicate Apart(w: ResponseWriter)
      reads this, w.Footprint(), if w.ToEdge? then w.edge.Repr else {}
      requires w.Valid()
    {
      this !in w.Footprint() && forall e <- free :: e !in w.Footprint()
    }

    /** acquireEdgeWriter. */
    method Acquire(w: ResponseWriter) returns (ew: EdgeWriter)
      requires w.Valid() && Apart(w)
      modifies this, free
      ensures w.Valid() && w.Abs() == old(w.Abs()) && w.Footprint() == old(w.Footprint()) && w.Chain() == old(w.Chain())
      ensures ew !in free && free <= old(free) && (ew in old(free) || fresh(ew)) && ew !in w.Footprint()
      ensures ew.Valid() && ew.Repr == {ew} + w.Footprint() && ew.responseWriter == w
      ensures ew.Abs() == Acquired(w.Abs()) && ew.Chain() == [w] + w.Chain()
    {
      if * {
        ew := new EdgeWriter(w);
      } else if free != {} {
        ew :| ew in free;
        free := free - {ew};
      } else {
        ew := new EdgeWriter(w);
      }
      ew.Acquire(w);
    }

    /** releaseEdgeWriter. */
    method Release(ew: EdgeWriter)
      modifies this, ew
      ensures free == old(free) + {ew}
    {
      ew.hdr, ew.buf := None, [];
      free := free + {ew};
    }
  }

  // ---------------------------------------------------------------------------------------------
  // Dispatch

  method ApplyAll(w: ResponseWriter, ops: seq<Op>)
    requires w.Valid()
    modifies w.Footprint()
    ensures w.Footprint() == old(w.Footprint()) && w.Valid() && w.Abs() == DoAll(old(w.Abs()), ops)
    ensures w.Chain() == old(w.Chain())
  {
    for i := 0 to |ops|
      invariant w.Footprint() == old(w.Footprint()) && w.Valid()
      invariant w.Chain() == old(w.Chain())
      invariant DoAll(w.Abs(), ops[i..]) == DoAll(old(w.Abs()), ops)
    {
      assert ops[i..][1..] == ops[i + 1..];
      w.Apply(ops[i]);
    }
  }

  /** Elton.ServeHTTP.  Whatever is in the pool, recycled writers serve a request as new ones would. */
  method ServeHTTP(w: ResponseWriter, d: Dispatch, pool: Pool)
    requires w.Valid() && pool.Apart(w)
    modifies w.Footprint(), pool, pool.free
    ensures w.Footprint() == old(w.Footprint()) && w.Valid() && w.Abs() == Serve(old(w.Abs()), d)
    ensures w.Chain() == old(w.Chain())
    ensures pool.Apart(w) && forall e <- pool.free :: e in old(pool.free) || fresh(e)
    decreases d, 1
  {
    hide DoWriteHeader, DoWrite, ChangeHeader, DoFlush, RunMux, Conclude;
    match d
    case Refused(message) =>
      w.Apply(WriteHeader(SERVICE_UNAVAILABLE));
      w.Apply(Write(message));
    case Accepted(site, mux) =>
      var ew := pool.Acquire(w);
      RunMuxOn(ew, mux, pool);
      assert ew.Chain()[0] == w && ew.Chain()[1..] == w.Chain();
      ConcludeOn(ew, w, site);
      pool.Release(ew);
  }

  /** mux.ServeHTTP(ew, req) */
  method RunMuxOn(ew: EdgeWriter, mux: Mux, pool: Pool)
    requires ew.Valid() && pool.Apart(ToEdge(ew))
    modifies ew.Repr, pool, pool.free
    ensures ew.Valid() && ew.Repr == old(ew.Repr) && ew.Chain() == old(ew.Chain())
    ensures ew.Abs() == RunMux(old(ew.Abs()), mux)
    ensures pool.Apart(ToEdge(ew)) && forall e <- pool.free :: e in old(pool.free) || fresh(e)
    decreases mux, 0
  {
    hide DoAll, RunRoute, Writers.MarkHandled;
    match mux
    case Route(prog) =>
      ew.MarkHandled();
      RunHandler(ew, prog, pool);
    case Answer(ops) =>
      ApplyAll(ToEdge(ew), ops);
  }

  /** What ServeHTTP does when the mux has returned. */
  method ConcludeOn(ew: EdgeWriter, w: ResponseWriter, site: Site)
    requires ew.Valid() && ew.responseWriter == w && w.Valid() && ew.Repr == {ew} + w.Footprint()
             && ew !in w.Footprint()
    modifies ew.Repr
    ensures w.Valid() && w.Footprint() == old(w.Footprint()) && w.Chain() == old(w.Chain())
    ensures w.Abs() == Conclude(old(ew.Abs()), site)
  {
    hide DoWriteHeader, DoWrite, ChangeHeader, DoFlush, DoAll, FlushBuffered;
    assert ew.Abs().inner == w.Abs();
    if !ew.handled {
      if ew.status == METHOD_NOT_ALLOWED {
        AnswerNotAllowed(w, First(ew.hdr.GetOr(map[]), ALLOW), site);
      } else if ew.status == NOT_FOUND || ew.status == 0 {
        ApplyAll(w, site.notFound);
      } else {
        ghost var chain := w.Chain();
        assert ew.Chain() == [w] + chain;
        ew.FlushBuffer();
        assert ew.Chain()[0] == w && ew.Chain()[1..] == w.Chain();
        assert ew.Abs().inner == w.Abs();
      }
    }
  }

  method AnswerNotAllowed(w: ResponseWriter, allow: Bytes, site: Site)
    requires w.Valid()
    modifies w.Footprint()
    ensures w.Footprint() == old(w.Footprint()) && w.Valid() && w.Chain() == old(w.Chain())
    ensures var before := old(w.Abs());
            w.Abs() == DoAll(if allow != [] then Do(before, SetHeader(ALLOW, allow)) else before, site.methodNotAllowed)
  {
    hide DoAll, Do;
    if allow != [] {
      w.Apply(SetHeader(ALLOW, allow));
    }
    ApplyAll(w, site.methodNotAllowed);
  }

  /** The handlers of a route, with c.Response == ew. */
  method RunHandler(ew: EdgeWriter, prog: seq<Act>, pool: Pool)
    requires ew.Valid() && pool.Apart(ToEdge(ew))
    modifies ew.Repr, pool, pool.free
    ensures ew.Valid() && ew.Repr == old(ew.Repr) && ew.Chain() == old(ew.Chain())
    ensures ew.Abs() == RunRoute(old(ew.Abs()), prog)
    ensures pool.Apart(ToEdge(ew)) && forall e <- pool.free :: e in old(pool.free) || fresh(e)
    decreases prog, 0
  {
    if prog != [] {
      RunAct(ew, prog[0], pool);
      RunHandler(ew, prog[1..], pool);
    }
  }

  method RunAct(ew: EdgeWriter, act: Act, pool: Pool)
    requires ew.Valid() && pool.Apart(ToEdge(ew))
    modifies ew.Repr, pool, pool.free
    ensures ew.Valid() && ew.Repr == old(ew.Repr) && ew.Chain() == old(ew.Chain())
    ensures ew.Abs() == Perform(old(ew.Abs()), act)
    ensures pool.Apart(ToEdge(ew)) && forall e <- pool.free :: e in old(pool.free) || fresh(e)
    decreases act, 0
  {
    match act
    case Plain(op) => ew.Apply(op);
    case Pass(to) => ServeHTTP(ToEdge(ew), to, pool);
  }
}
