/** The pools of edgeWriters and Contexts under any interleaving of requests (elton.go, route.go, context.go):
    who holds what, and which Contexts still refer to a writer that went back to the pool. */
module PoolRuns {
  import opened Text

  /** A http.ResponseWriter: the connection of a request, a pooled edgeWriter, or something a handler built
      around another one. */
  datatype Response = Conn(request: nat) | Edge(writer: nat) | Wrapped(inner: Response)

  /** The writers a response refers to. */
  function Mentions(r: Response): set<nat> {
    match r
    case Conn(_) => {}
    case Edge(w) => {w}
    case Wrapped(i) => Mentions(i)
  }

  /** One ServeHTTP of a matched route that has not returned: what it took from the pools, and the writer it
      was called with. */
  datatype Frame = Frame(writer: nat, context: nat, incoming: Response)

  /** A pooled object: in the pool, held by a frame of a request, or kept out of the pool by DisableReuse. */
  datatype Slot = Free | Held(request: nat, depth: nat) | Kept

  /** `inner` is the ResponseWriter field of each edgeWriter, `response` the Response field of each Context; an
      absent entry is nil.  `stacks` holds the frames of each request, the innermost last. */
  datatype State = State(stacks: map<nat, seq<Frame>>, writers: map<nat, Slot>, contexts: map<nat, Slot>,
                         inner: map<nat, Response>, response: map<nat, Response>)

  /** Begin: net/http hands in a request.  Pass: the innermost handler of a request passes it to another
      instance.  Wrap: it replaces its Response by a writer around it.  Return: its route function returns, and
      then the ServeHTTP it was called from.  Forget: an object that no request uses is dropped, by its pool or
      by the program that kept it. */
  datatype Event =
    | Begin(request: nat, writer: nat, context: nat)
    | Pass(request: nat, writer: nat, context: nat)
    | Wrap(request: nat)
    | Return(request: nat, reuse: bool)
    | ForgetWriter(writer: nat)
    | ForgetContext(context: nat)

  function Start(): State {
    State(map[], map[], map[], map[], map[])
  }

  /** Get returns an object of the pool, or a new one. */
  predicate Available(slots: map<nat, Slot>, x: nat) {
    x !in slots || slots[x] == Free
  }

  predicate Active(s: State, q: nat) {
    q in s.stacks && s.stacks[q] != []
  }

  function Top(s: State, q: nat): Frame
    requires Active(s, q)
  {
    s.stacks[q][|s.stacks[q]| - 1]
  }

  predicate Enabled(s: State, e: Event) {
    match e
    case Begin(q, w, c) => q !in s.stacks && Available(s.writers, w) && Available(s.contexts, c)
    case Pass(q, w, c) =>
      Active(s, q) && Top(s, q).context in s.response && Available(s.writers, w) && Available(s.contexts, c)
    case Wrap(q) => Active(s, q) && Top(s, q).context in s.response
    case Return(q, _) => Active(s, q) && Top(s, q).context in s.response
    case ForgetWriter(w) => w in s.writers && s.writers[w] == Free
    case ForgetContext(c) => c in s.contexts && !s.contexts[c].Held?
  }

  /** acquireEdgeWriter, and the Context the route function takes. */
  function Enter(s: State, q: nat, w: nat, c: nat, incoming: Response): State {
    var frames := if q in s.stacks then s.stacks[q] else [];
    var slot := Held(q, |frames|);
    State(s.stacks[q := frames + [Frame(w, c, incoming)]], s.writers[w := slot], s.contexts[c := slot],
          s.inner[w := incoming], s.response[c := Edge(w)])
  }

  /** detachEdgeFromContext, given that `response` is that of the context. */
  function Detached(response: Response, inner: map<nat, Response>): Option<Response> {
    match response
    case Edge(w) => if w in inner then Some(inner[w]) else None
    case _ => Some(response)
  }

  function Set(m: map<nat, Response>, x: nat, r: Option<Response>): map<nat, Response> {
    match r
    case Some(v) => m[x := v]
    case None => m - {x}
  }

  function Leave(s: State, q: nat, reuse: bool): State
    requires Active(s, q) && Top(s, q).context in s.response
  {
    var f, n := Top(s, q), |s.stacks[q]| - 1;
    var stacks := if n == 0 then s.stacks - {q} else s.stacks[q := s.stacks[q][..n]];
    State(stacks, s.writers[f.writer := Free], s.contexts[f.context := if reuse then Free else Kept],
          s.inner - {f.writer}, Set(s.response, f.context, Detached(s.response[f.context], s.inner)))
  }

  function Step(s: State, e: Event): State
    requires Enabled(s, e)
  {
    match e
    case Begin(q, w, c) => Enter(s, q, w, c, Conn(q))
    case Pass(q, w, c) => Enter(s, q, w, c, s.response[Top(s, q).context])
    case Wrap(q) => s.(response := s.response[Top(s, q).context := Wrapped(s.response[Top(s, q).context])])
    case Return(q, reuse) => Leave(s, q, reuse)
    case ForgetWriter(w) => s.(writers := s.writers - {w}, inner := s.inner - {w})
    case ForgetContext(c) => s.(contexts := s.contexts - {c}, response := s.response - {c})
  }

  ghost predicate Run(s: State, events: seq<Event>, t: State)
    decreases |events|
  {
    if events == [] then t == s else Enabled(s, events[0]) && Run(Step(s, events[0]), events[1..], t)
  }

  // ---------------------------------------------------------------------------------------------
  // The invariant

  predicate IsFrame(s: State, q: nat, k: nat) {
    q in s.stacks && k < |s.stacks[q]|
  }

  /** The frame's writer and context are its own; the writer stands before what the frame was called with,
      which is the response of the context below; and the context refers to the writer alone. */
  predicate FrameOk(s: State, q: nat, k: nat)
    requires IsFrame(s, q, k)
  {
    var f := s.stacks[q][k];
    && f.writer in s.writers && s.writers[f.writer] == Held(q, k)
    && f.context in s.contexts && s.contexts[f.context] == Held(q, k)
    && f.writer in s.inner && s.inner[f.writer] == f.incoming
    && f.context in s.response && Mentions(s.response[f.context]) == {f.writer}
    && (s.response[f.context] == Edge(f.writer) || s.response[f.context].Wrapped?)
    && if k == 0 then f.incoming == Conn(q)
       else var below: nat := k - 1;
            var g := s.stacks[q][below];
            g.context in s.response && f.incoming == s.response[g.context]
  }

  predicate ContextHeld(s: State, c: nat)
    requires c in s.contexts
  {
    s.contexts[c].Held? ==>
      var q, k := s.contexts[c].request, s.contexts[c].depth;
      IsFrame(s, q, k) && s.stacks[q][k].context == c
  }

  ghost predicate Inv(s: State) {
    && (forall q <- s.stacks :: s.stacks[q] != [])
    && (forall c <- s.contexts :: ContextHeld(s, c))
    && forall q, k: nat :: IsFrame(s, q, k) ==> FrameOk(s, q, k)
  }

  lemma {:induction false} EnterKeeps(s: State, q: nat, w: nat, c: nat, incoming: Response)
    requires Inv(s) && Available(s.writers, w) && Available(s.contexts, c)
    requires if q in s.stacks then Active(s, q) && Top(s, q).context in s.response
             && incoming == s.response[Top(s, q).context]
             else incoming == Conn(q)
    ensures Inv(Enter(s, q, w, c, incoming))
  {
    var t := Enter(s, q, w, c, incoming);
    forall d <- t.contexts ensures ContextHeld(t, d) {
      assert d != c ==> ContextHeld(s, d);
    }
    forall p, k: nat | IsFrame(t, p, k) ensures FrameOk(t, p, k) {
      if IsFrame(s, p, k) {
        assert FrameOk(s, p, k) && t.stacks[p][k] == s.stacks[p][k];
        if k > 0 {
          var below: nat := k - 1;
          assert FrameOk(s, p, below) && t.stacks[p][below] == s.stacks[p][below];
        }
      } else if k > 0 {
        var below: nat := k - 1;
        assert FrameOk(s, p, below) && t.stacks[p][below] == s.stacks[p][below];
      }
    }
  }

  lemma {:induction false} LeaveKeeps(s: State, q: nat, reuse: bool)
    requires Inv(s) && Active(s, q) && Top(s, q).context in s.response
    ensures Inv(Leave(s, q, reuse))
  {
    var t := Leave(s, q, reuse);
    var n: nat := |s.stacks[q]| - 1;
    assert FrameOk(s, q, n);
    forall d <- t.contexts ensures ContextHeld(t, d) {
      assert ContextHeld(s, d);
    }
    forall p, k: nat | IsFrame(t, p, k) ensures FrameOk(t, p, k) {
      assert FrameOk(s, p, k) && t.stacks[p][k] == s.stacks[p][k];
      if k > 0 {
        var below: nat := k - 1;
        assert FrameOk(s, p, below) && t.stacks[p][below] == s.stacks[p][below];
      }
    }
  }

  lemma {:induction false} WrapKeeps(s: State, q: nat)
    requires Inv(s) && Enabled(s, Wrap(q))
    ensures Inv(Step(s, Wrap(q)))
  {
    var t := Step(s, Wrap(q));
    var n: nat := |s.stacks[q]| - 1;
    assert FrameOk(s, q, n);
    forall d <- t.contexts ensures ContextHeld(t, d) {
      assert ContextHeld(s, d);
    }
    forall p, k: nat | IsFrame(t, p, k) ensures FrameOk(t, p, k) {
      assert FrameOk(s, p, k);
      if k > 0 {
        var below: nat := k - 1;
        assert FrameOk(s, p, below);
      }
    }
  }

  lemma {:induction false} ForgetKeeps(s: State, e: Event)
    requires Inv(s) && Enabled(s, e) && (e.ForgetWriter? || e.ForgetContext?)
    ensures Inv(Step(s, e))
  {
    var t := Step(s, e);
    forall d <- t.contexts ensures ContextHeld(t, d) {
      assert ContextHeld(s, d);
    }
    forall p, k: nat | IsFrame(t, p, k) ensures FrameOk(t, p, k) {
      assert FrameOk(s, p, k);
      if k > 0 {
        var below: nat := k - 1;
        assert FrameOk(s, p, below);
      }
    }
  }

  lemma {:induction false} StepKeeps(s: State, e: Event)
    requires Inv(s) && Enabled(s, e)
    ensures Inv(Step(s, e))
  {
    match e
    case Begin(q, w, c) => EnterKeeps(s, q, w, c, Conn(q));
    case Pass(q, w, c) => EnterKeeps(s, q, w, c, s.response[Top(s, q).context]);
    case Wrap(q) => WrapKeeps(s, q);
    case Return(q, reuse) => LeaveKeeps(s, q, reuse);
    case _ => ForgetKeeps(s, e);
  }

  lemma {:induction false} RunKeeps(s: State, events: seq<Event>, t: State)
    requires Inv(s) && Run(s, events, t)
    ensures Inv(t)
    decreases |events|
  {
    if events != [] {
      StepKeeps(s, events[0]);
      RunKeeps(Step(s, events[0]), events[1..], t);
    }
  }

  // ---------------------------------------------------------------------------------------------
  // What holds in every run

  /** Whatever is recycled, two requests, or two levels of one, never share a writer or a Context, and none of
      those in use is in its pool. */
  lemma {:induction false} HoldersAreExclusive(events: seq<Event>, s: State, q: nat, k: nat, p: nat, j: nat)
    requires Run(Start(), events, s) && IsFrame(s, q, k) && IsFrame(s, p, j)
    ensures var f, g := s.stacks[q][k], s.stacks[p][j];
            && ((q, k) != (p, j) ==> f.writer != g.writer && f.context != g.context)
            && !Available(s.writers, f.writer) && !Available(s.contexts, f.context)
  {
    RunKeeps(Start(), events, s);
    assert FrameOk(s, q, k) && FrameOk(s, p, j);
  }

  /** The connection that writing to r reaches in the end, through at most n writers that are in use. */
  function Bottom(s: State, r: Response, n: nat): Option<nat>
    decreases n, r
  {
    match r
    case Conn(q) => Some(q)
    case Wrapped(i) => Bottom(s, i, n)
    case Edge(w) =>
      if n == 0 || Available(s.writers, w) || w !in s.inner then None
      else var less := n - 1; Bottom(s, s.inner[w], less)
  }

  lemma {:induction false} BottomThrough(s: State, r: Response, w: nat, n: nat)
    requires Mentions(r) == {w} && !Available(s.writers, w) && w in s.inner
    ensures var more := n + 1; Bottom(s, r, more) == Bottom(s, s.inner[w], n)
    decreases r
  {
    assert w in Mentions(r);
    if r.Wrapped? {
      BottomThrough(s, r.inner, w, n);
    }
  }

  /** What is written through a Context in use ends on the connection of its own request, and passes only
      through writers in use, as it would with writers that were never used before. */
  lemma {:induction false} WritesReachTheOwnConnection(events: seq<Event>, s: State, q: nat, k: nat)
    requires Run(Start(), events, s) && IsFrame(s, q, k) && s.stacks[q][k].context in s.response
    ensures var levels := k + 1; Bottom(s, s.response[s.stacks[q][k].context], levels) == Some(q)
    decreases k
  {
    RunKeeps(Start(), events, s);
    assert FrameOk(s, q, k);
    var f := s.stacks[q][k];
    if k > 0 {
      var below: nat := k - 1;
      assert FrameOk(s, q, below);
      WritesReachTheOwnConnection(events, s, q, below);
    }
    BottomThrough(s, s.response[f.context], f.writer, k);
  }

  // ---------------------------------------------------------------------------------------------
  // References to released writers

  /** No Context refers to a writer in the pool. */
  ghost predicate Clean(s: State) {
    forall c <- s.response, w <- Mentions(s.response[c]) :: !Available(s.writers, w)
  }

  /** Not held by a frame. */
  predicate Idle(s: State, c: nat) {
    c !in s.contexts || !s.contexts[c].Held?
  }

  /** A Context in use refers to the writer of its frame alone. */
  lemma {:induction false} HeldMentions(s: State, c: nat)
    requires Inv(s) && !Idle(s, c) && c in s.response
    ensures var q, k := s.contexts[c].request, s.contexts[c].depth;
            && IsFrame(s, q, k) && s.stacks[q][k].context == c
            && Mentions(s.response[c]) == {s.stacks[q][k].writer}
            && s.stacks[q][k].writer in s.writers && s.writers[s.stacks[q][k].writer] == Held(q, k)
  {
    assert ContextHeld(s, c);
    assert FrameOk(s, s.contexts[c].request, s.contexts[c].depth);
  }

  /** When the innermost level of a request returns in a clean state, its writer is released cleanly exactly if its
      handler left the Response as it was, and no Context that is not in use refers to the writer.  PoolHistory
      says when that is so. */
  lemma {:induction false} ReleaseIsCleanIff(events: seq<Event>, s: State, q: nat, reuse: bool)
    requires Run(Start(), events, s) && Clean(s) && Enabled(s, Return(q, reuse))
    ensures var f := Top(s, q);
            Clean(Leave(s, q, reuse)) <==>
            s.response[f.context].Edge? && forall c <- s.response :: Idle(s, c) ==> f.writer !in Mentions(s.response[c])
  {
    RunKeeps(Start(), events, s);
    ReleaseIsCleanFrom(s, q, reuse);
  }

  lemma {:induction false} ReleaseIsCleanFrom(s: State, q: nat, reuse: bool)
    requires Inv(s) && Clean(s) && Enabled(s, Return(q, reuse))
    ensures var f := Top(s, q);
            Clean(Leave(s, q, reuse)) <==>
            s.response[f.context].Edge? && forall c <- s.response :: Idle(s, c) ==> f.writer !in Mentions(s.response[c])
  {
    var f, t := Top(s, q), Leave(s, q, reuse);
    var n: nat := |s.stacks[q]| - 1;
    assert FrameOk(s, q, n);
    if n > 0 {
      var below: nat := n - 1;
      assert FrameOk(s, q, below);
    }
    if s.response[f.context].Wrapped? {
      assert t.response[f.context] == s.response[f.context] && f.writer in Mentions(t.response[f.context]);
      assert Available(t.writers, f.writer);
    } else if c :| c in s.response && Idle(s, c) && f.writer in Mentions(s.response[c]) {
      assert c != f.context && t.response[c] == s.response[c];
      assert Available(t.writers, f.writer);
    } else {
      forall c <- t.response, w <- Mentions(t.response[c]) ensures !Available(t.writers, w) {
        if c == f.context {
          assert t.response[c] == f.incoming;
          assert !Available(t.writers, w);
        } else {
          assert t.response[c] == s.response[c];
          if Idle(s, c) {
            assert w != f.writer;
            assert !Available(s.writers, w);
            assert !Available(t.writers, w);
          } else {
            HeldMentions(s, c);
            assert w in {s.stacks[s.contexts[c].request][s.contexts[c].depth].writer};
            assert !Available(t.writers, w);
          }
        }
      }
    }
  }

  /** A run without Pass and without handlers that replace their Response. */
  predicate Plain(events: seq<Event>) {
    forall e <- events :: !e.Pass? && !e.Wrap?
  }

  /** Contexts that are not in use refer to no writer at all, and no request has a second level. */
  ghost predicate AllDetached(s: State) {
    && (forall c <- s.response :: Idle(s, c) ==> Mentions(s.response[c]) == {})
    && forall q, k: nat :: IsFrame(s, q, k) ==>
         k == 0 && s.stacks[q][k].context in s.response && s.response[s.stacks[q][k].context].Edge?
  }

  lemma {:induction false} PlainStepDetaches(s: State, e: Event)
    requires Inv(s) && AllDetached(s) && Enabled(s, e) && !e.Pass? && !e.Wrap?
    ensures AllDetached(Step(s, e))
  {
    var t := Step(s, e);
    if e.Return? {
      var n: nat := |s.stacks[e.request]| - 1;
      assert FrameOk(s, e.request, n);
    }
    forall c <- t.response | Idle(t, c) ensures Mentions(t.response[c]) == {} {
      if e.Return? && c != Top(s, e.request).context {
        assert Idle(s, c);
      }
    }
    forall q, k: nat | IsFrame(t, q, k)
      ensures k == 0 && t.stacks[q][k].context in t.response && t.response[t.stacks[q][k].context].Edge?
    {
      if !(e.Begin? && q == e.request) {
        assert IsFrame(s, q, k) && FrameOk(s, q, k) && t.stacks[q][k] == s.stacks[q][k];
      }
    }
  }

  lemma {:induction false} DetachedIsClean(s: State)
    requires Inv(s) && AllDetached(s)
    ensures Clean(s)
  {
    forall c <- s.response, w <- Mentions(s.response[c]) ensures !Available(s.writers, w) {
      HeldMentions(s, c);
    }
  }

  lemma {:induction false} PlainRunFrom(s: State, events: seq<Event>, t: State)
    requires Inv(s) && AllDetached(s) && Run(s, events, t) && Plain(events)
    ensures Clean(t)
    decreases |events|
  {
    if events == [] {
      DetachedIsClean(s);
    } else {
      var e := events[0];
      assert e in events && forall x <- events[1..] :: x in events;
      StepKeeps(s, e);
      PlainStepDetaches(s, e);
      PlainRunFrom(Step(s, e), events[1..], t);
    }
  }

  /** Without Pass and without replaced Responses, a writer is never in the pool while a Context refers to it,
      whatever is recycled, kept or interleaved. */
  lemma {:induction false} PlainRunsAreClean(events: seq<Event>, s: State)
    requires Run(Start(), events, s) && Plain(events)
    ensures Clean(s)
  {
    PlainRunFrom(Start(), events, s);
  }

  /** When the inner level of a request has returned, its Context still refers to a writer: that of the level
      below if the handler left its Response as it was, because only one layer is taken off. */
  lemma {:induction false} PassLeaves(s: State, q: nat, reuse: bool)
    requires Inv(s) && q in s.stacks && |s.stacks[q]| >= 2
    ensures Enabled(s, Return(q, reuse))
    ensures var t, f, below: nat := Leave(s, q, reuse), Top(s, q), |s.stacks[q]| - 2;
            && Inv(t) && Enabled(t, Return(q, true)) && Top(t, q) == s.stacks[q][below]
            && f.context != Top(t, q).context && f.writer != Top(t, q).writer
            && f.context in t.response && t.writers[f.writer] == Free
            && Mentions(t.response[f.context]) == {if s.response[f.context].Edge? then Top(t, q).writer else f.writer}
            && f.context in t.contexts && t.contexts[f.context] == (if reuse then Free else Kept)
  {
    var n: nat, below: nat := |s.stacks[q]| - 1, |s.stacks[q]| - 2;
    assert FrameOk(s, q, n) && FrameOk(s, q, below);
    LeaveKeeps(s, q, reuse);
    assert FrameOk(Leave(s, q, reuse), q, below);
  }

  /** With Pass it is otherwise: if both levels return with nothing in between, a Context refers to a released
      writer, whether or not the Contexts go back to their pools. */
  lemma {:induction false} PassIsNotClean(events: seq<Event>, s: State, q: nat, reuse: bool, reuse': bool)
    requires Run(Start(), events, s) && q in s.stacks && |s.stacks[q]| >= 2
    ensures Enabled(s, Return(q, reuse))
    ensures var t := Leave(s, q, reuse);
            && Enabled(t, Return(q, reuse'))
            && !Clean(Leave(t, q, reuse'))
  {
    RunKeeps(Start(), events, s);
    PassLeaves(s, q, reuse);
    var f, t := Top(s, q), Leave(s, q, reuse);
    var g, u := Top(t, q), Leave(t, q, reuse');
    hide Inv, FrameOk;
    assert u.response[f.context] == t.response[f.context];
    var w := if s.response[f.context].Edge? then g.writer else f.writer;
    assert w in Mentions(u.response[f.context]) && Available(u.writers, w);
  }

  /** A Context that was kept from the pool then refers to the writer of whichever request takes it next. */
  lemma {:induction false} KeptContextMeetsAnotherRequest(events: seq<Event>, s: State, q: nat, reuse: bool, p: nat,
                                                          c: nat)
    requires Run(Start(), events, s) && q in s.stacks && |s.stacks[q]| >= 2
    requires Top(s, q).context in s.response && s.response[Top(s, q).context].Edge?
    requires p !in s.stacks && Available(s.contexts, c)
    ensures Enabled(s, Return(q, false))
    ensures var f, t := Top(s, q), Leave(s, q, false);
            && Enabled(t, Return(q, reuse))
            && var g, u := Top(t, q), Leave(t, q, reuse);
            && Enabled(u, Begin(p, g.writer, c))
            && var v := Step(u, Begin(p, g.writer, c));
            && v.writers[g.writer] == Held(p, 0)
            && f.context in v.contexts && v.contexts[f.context] == Kept
            && f.context in v.response && g.writer in Mentions(v.response[f.context])
  {
    RunKeeps(Start(), events, s);
    PassLeaves(s, q, false);
    var n: nat, below: nat := |s.stacks[q]| - 1, |s.stacks[q]| - 2;
    assert FrameOk(s, q, n) && FrameOk(s, q, below);
    hide Inv, FrameOk;
    var f, t := Top(s, q), Leave(s, q, false);
    var g, u := Top(t, q), Leave(t, q, reuse);
    assert c !in {f.context, g.context};
    assert u.contexts[f.context] == Kept && u.response[f.context] == t.response[f.context];
    assert p !in u.stacks;
  }
}
