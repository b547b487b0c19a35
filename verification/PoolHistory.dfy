/** When is a writer returned to its pool while a Context still refers to it?  The answer for whole runs, from the
    history of each request alone. */
module PoolHistory {
  import opened PoolRuns

  /** What is noted of a frame: its Context, whether its handler replaced the Response, and the Contexts that its
      Passes used and that nobody has taken again or dropped since. */
  datatype Mark = Mark(context: nat, wrapped: bool, lent: set<nat>)

  type Ledger = map<nat, seq<Mark>>

  /** Context c is taken again, or dropped. */
  function Without(marks: seq<Mark>, c: nat): (r: seq<Mark>)
    ensures |r| == |marks|
    ensures forall k :: 0 <= k < |marks| ==> r[k] == marks[k].(lent := marks[k].lent - {c})
  {
    seq(|marks|, k requires 0 <= k < |marks| => marks[k].(lent := marks[k].lent - {c}))
  }

  function Taken(l: Ledger, c: nat): Ledger {
    map q <- l :: Without(l[q], c)
  }

  function Marks(l: Ledger, q: nat): seq<Mark> {
    if q in l then l[q] else []
  }

  function LendTop(marks: seq<Mark>, c: nat): seq<Mark> {
    if marks == [] then []
    else marks[|marks| - 1 := marks[|marks| - 1].(lent := marks[|marks| - 1].lent + {c})]
  }

  function WrapTop(marks: seq<Mark>): seq<Mark> {
    if marks == [] then [] else marks[|marks| - 1 := marks[|marks| - 1].(wrapped := true)]
  }

  /** The ledger is kept from the events alone. */
  function Note(l: Ledger, e: Event): Ledger {
    match e
    case Begin(q, _, c) => Taken(l, c)[q := Marks(Taken(l, c), q) + [Mark(c, false, {})]]
    case Pass(q, _, c) => Taken(l, c)[q := LendTop(Marks(Taken(l, c), q), c) + [Mark(c, false, {})]]
    case Wrap(q) => l[q := WrapTop(Marks(l, q))]
    case Return(q, _) => if |Marks(l, q)| <= 1 then l - {q} else l[q := l[q][..|l[q]| - 1]]
    case ForgetWriter(_) => l
    case ForgetContext(c) => Taken(l, c)
  }

  /** The innermost handler of q left its Response as it was, and every Context that it used for a Pass has since
      been taken again or dropped. */
  predicate Proper(l: Ledger, q: nat) {
    var marks := Marks(l, q);
    marks != [] ==> !marks[|marks| - 1].wrapped && marks[|marks| - 1].lent == {}
  }

  /** Every return of the run is proper. */
  predicate AllProper(l: Ledger, events: seq<Event>)
    decreases |events|
  {
    events == [] || ((events[0].Return? ==> Proper(l, events[0].request)) && AllProper(Note(l, events[0]), events[1..]))
  }

  /** Every state of the run is clean. */
  ghost predicate AllClean(s: State, events: seq<Event>)
    decreases |events|
  {
    Clean(s) && (events == [] || (Enabled(s, events[0]) && AllClean(Step(s, events[0]), events[1..])))
  }

  // ---------------------------------------------------------------------------------------------
  // The ledger tells which idle Contexts refer to which writers

  /** Context c counts as lent by frame k of q exactly if it is not in use and refers to the writer of that frame,
      or is in use one level above it. */
  predicate LentOk(s: State, l: Ledger, q: nat, k: nat, c: nat)
    requires IsFrame(s, q, k) && q in l && k < |l[q]|
  {
    var above: nat := k + 1;
    c in l[q][k].lent <==>
    if Idle(s, c) then c in s.response && s.stacks[q][k].writer in Mentions(s.response[c])
    else above < |s.stacks[q]| && c == s.stacks[q][above].context
  }

  ghost predicate MarkOk(s: State, l: Ledger, q: nat, k: nat)
    requires IsFrame(s, q, k) && q in l && k < |l[q]|
  {
    var f := s.stacks[q][k];
    && l[q][k].context == f.context
    && f.context in s.response && (l[q][k].wrapped <==> s.response[f.context].Wrapped?)
    && forall c: nat :: LentOk(s, l, q, k, c)
  }

  ghost predicate Matches(s: State, l: Ledger) {
    && (forall q :: q in l <==> q in s.stacks)
    && (forall q <- l :: |l[q]| == |s.stacks[q]|)
    && forall q, k: nat :: IsFrame(s, q, k) ==> MarkOk(s, l, q, k)
  }

  /** A Context in use is that of one frame. */
  lemma {:induction false} ContextsDiffer(s: State, q: nat, k: nat, p: nat, j: nat)
    requires Inv(s) && IsFrame(s, q, k) && IsFrame(s, p, j) && (q, k) != (p, j)
    ensures s.stacks[q][k].context != s.stacks[p][j].context && s.stacks[q][k].writer != s.stacks[p][j].writer
    ensures !Idle(s, s.stacks[q][k].context)
  {
    assert FrameOk(s, q, k) && FrameOk(s, p, j);
  }

  /** What Begin and Pass do to the ledger of a frame. */
  lemma {:induction false} EnterNotes(s: State, l: Ledger, q: nat, w: nat, c: nat, e: Event, p: nat, k: nat)
    requires Matches(s, l) && Enabled(s, e) && (e == Begin(q, w, c) || e == Pass(q, w, c))
    requires Inv(s) && IsFrame(s, p, k)
    ensures var m := Note(l, e);
            && p in m && k < |m[p]| && p in l && k < |l[p]|
            && m[p][k] == l[p][k].(lent := l[p][k].lent - {c} + if p == q && k + 1 == |s.stacks[p]| then {c} else {})
  {
    assert e.Begin? ==> p != q;
  }

  lemma {:induction false} EnterLent(s: State, l: Ledger, q: nat, w: nat, c: nat, e: Event, p: nat, k: nat, d: nat)
    requires Inv(s) && Matches(s, l) && Enabled(s, e) && (e == Begin(q, w, c) || e == Pass(q, w, c))
    requires IsFrame(s, p, k) && IsFrame(Step(s, e), p, k) && p in Note(l, e) && k < |Note(l, e)[p]|
    ensures LentOk(Step(s, e), Note(l, e), p, k, d)
  {
    var t, m, above: nat := Step(s, e), Note(l, e), k + 1;
    EnterNotes(s, l, q, w, c, e, p, k);
    assert MarkOk(s, l, p, k);
    assert LentOk(s, l, p, k, d);
    assert IsFrame(s, p, above) ==> FrameOk(s, p, above);
    hide Inv, Matches, MarkOk, Note;
    assert t.stacks[p][k] == s.stacks[p][k];
    assert IsFrame(s, p, above) ==> t.stacks[p][above] == s.stacks[p][above];
    if d == c {
      assert !Idle(t, c);
    } else {
      assert Idle(t, d) <==> Idle(s, d);
      assert d in s.response <==> d in t.response;
    }
  }

  lemma {:induction false} EnterIsClean(s: State, q: nat, w: nat, c: nat, e: Event)
    requires Clean(s) && Enabled(s, e) && (e == Begin(q, w, c) || e == Pass(q, w, c))
    ensures Clean(Step(s, e))
  {
    var t := Step(s, e);
    forall d <- t.response, x <- Mentions(t.response[d]) ensures !Available(t.writers, x) {
      if d != c {
        assert t.response[d] == s.response[d];
        assert !Available(s.writers, x);
      }
    }
  }

  /** The new frame has lent nothing, and no idle Context refers to a writer that was available. */
  lemma {:induction false} NewFrameMatches(s: State, l: Ledger, q: nat, w: nat, c: nat, e: Event, k: nat)
    requires Inv(s) && Matches(s, l) && Clean(s) && Enabled(s, e) && (e == Begin(q, w, c) || e == Pass(q, w, c))
    requires IsFrame(Step(s, e), q, k) && !IsFrame(s, q, k)
    ensures q in Note(l, e) && k < |Note(l, e)[q]| && MarkOk(Step(s, e), Note(l, e), q, k)
  {
    var t, m := Step(s, e), Note(l, e);
    assert t.stacks[q][k].context == c && t.stacks[q][k].writer == w;
    assert m[q][k] == Mark(c, false, {});
    hide Inv, Matches, Note;
    forall d: nat ensures LentOk(t, m, q, k, d) {
      if d in s.response && d != c {
        assert w !in Mentions(s.response[d]);
      }
    }
  }

  lemma {:induction false} EnterMatches(s: State, l: Ledger, q: nat, w: nat, c: nat, e: Event)
    requires Inv(s) && Matches(s, l) && Clean(s) && Enabled(s, e)
    requires e == Begin(q, w, c) || e == Pass(q, w, c)
    ensures Matches(Step(s, e), Note(l, e)) && Clean(Step(s, e))
  {
    var t, m := Step(s, e), Note(l, e);
    EnterIsClean(s, q, w, c, e);
    forall p: nat, k: nat | IsFrame(t, p, k) ensures MarkOk(t, m, p, k) {
      if IsFrame(s, p, k) {
        EnterNotes(s, l, q, w, c, e, p, k);
        assert MarkOk(s, l, p, k) && FrameOk(s, p, k) && t.stacks[p][k] == s.stacks[p][k];
        forall d: nat ensures LentOk(t, m, p, k, d) {
          EnterLent(s, l, q, w, c, e, p, k, d);
        }
      } else {
        NewFrameMatches(s, l, q, w, c, e, k);
      }
    }
  }

  lemma {:induction false} WrapMatches(s: State, l: Ledger, q: nat)
    requires Inv(s) && Matches(s, l) && Clean(s) && Enabled(s, Wrap(q))
    ensures Matches(Step(s, Wrap(q)), Note(l, Wrap(q))) && Clean(Step(s, Wrap(q)))
  {
    var t, m := Step(s, Wrap(q)), Note(l, Wrap(q));
    var n: nat := |s.stacks[q]| - 1;
    var c := Top(s, q).context;
    assert FrameOk(s, q, n);
    assert forall d :: d in t.response <==> d in s.response;
    assert forall d <- t.response :: Mentions(t.response[d]) == Mentions(s.response[d]);
    forall d <- t.response, x <- Mentions(t.response[d]) ensures !Available(t.writers, x) {
      assert x in Mentions(s.response[d]);
    }
    forall p: nat, k: nat | IsFrame(t, p, k) ensures MarkOk(t, m, p, k) {
      assert MarkOk(s, l, p, k);
      if (p, k) != (q, n) {
        ContextsDiffer(s, q, n, p, k);
      }
      forall d: nat ensures LentOk(t, m, p, k, d) {
        assert LentOk(s, l, p, k, d);
      }
    }
  }

  lemma {:induction false} ForgetMatches(s: State, l: Ledger, e: Event)
    requires Inv(s) && Matches(s, l) && Clean(s) && Enabled(s, e) && (e.ForgetWriter? || e.ForgetContext?)
    ensures Matches(Step(s, e), Note(l, e)) && Clean(Step(s, e))
  {
    var t, m := Step(s, e), Note(l, e);
    forall d <- t.response, x <- Mentions(t.response[d]) ensures !Available(t.writers, x) {
      assert t.response[d] == s.response[d] && x in Mentions(s.response[d]);
      assert !Available(s.writers, x);
    }
    forall p: nat, k: nat | IsFrame(t, p, k) ensures MarkOk(t, m, p, k) {
      assert MarkOk(s, l, p, k) && FrameOk(s, p, k);
      var above: nat := k + 1;
      assert IsFrame(s, p, above) ==> FrameOk(s, p, above);
      forall d: nat ensures LentOk(t, m, p, k, d) {
        assert LentOk(s, l, p, k, d);
      }
    }
  }

  /** A proper return: the Context goes on referring to the writer of the frame below, which has lent it. */
  lemma {:induction false} ReturnMatches(s: State, l: Ledger, q: nat, reuse: bool)
    requires Inv(s) && Matches(s, l) && Clean(s) && Enabled(s, Return(q, reuse)) && Proper(l, q)
    ensures Matches(Leave(s, q, reuse), Note(l, Return(q, reuse))) && Clean(Leave(s, q, reuse))
  {
    var t, m := Leave(s, q, reuse), Note(l, Return(q, reuse));
    var n: nat := |s.stacks[q]| - 1;
    var f := Top(s, q);
    assert FrameOk(s, q, n) && MarkOk(s, l, q, n);
    assert t.response[f.context] == f.incoming;
    ReturnIsClean(s, l, q, reuse);
    forall p: nat, k: nat | IsFrame(t, p, k) ensures MarkOk(t, m, p, k) {
      assert MarkOk(s, l, p, k) && FrameOk(s, p, k);
      ContextsDiffer(s, q, n, p, k);
      assert m[p][k] == l[p][k] && t.stacks[p][k] == s.stacks[p][k];
      forall d: nat ensures LentOk(t, m, p, k, d) {
        ReturnLent(s, l, q, reuse, p, k, d);
      }
    }
  }

  lemma {:induction false} ReturnLent(s: State, l: Ledger, q: nat, reuse: bool, p: nat, k: nat, d: nat)
    requires Inv(s) && Matches(s, l) && Enabled(s, Return(q, reuse)) && Proper(l, q)
    requires IsFrame(Leave(s, q, reuse), p, k) && p in l && k < |l[p]|
    ensures LentOk(Leave(s, q, reuse), l, p, k, d)
  {
    var t, n: nat, above: nat, f := Leave(s, q, reuse), |s.stacks[q]| - 1, k + 1, Top(s, q);
    assert MarkOk(s, l, q, n) && FrameOk(s, q, n);
    assert MarkOk(s, l, p, k) && FrameOk(s, p, k);
    assert LentOk(s, l, p, k, d);
    assert IsFrame(s, p, above) ==> FrameOk(s, p, above);
    if n > 0 {
      var below: nat := n - 1;
      assert FrameOk(s, q, below);
    }
    hide Inv, Matches, MarkOk;
    assert t.stacks[p][k] == s.stacks[p][k];
    assert t.response[f.context] == f.incoming;
    if d == f.context {
      assert Idle(t, d) && !Idle(s, d);
    } else {
      assert Idle(t, d) <==> Idle(s, d);
    }
  }

  lemma {:induction false} ReturnIsClean(s: State, l: Ledger, q: nat, reuse: bool)
    requires Inv(s) && Matches(s, l) && Clean(s) && Enabled(s, Return(q, reuse))
    ensures Clean(Leave(s, q, reuse)) <==> Proper(l, q)
  {
    var n: nat := |s.stacks[q]| - 1;
    var f := Top(s, q);
    assert FrameOk(s, q, n) && MarkOk(s, l, q, n);
    ReleaseIsCleanFrom(s, q, reuse);
    hide Inv, Matches, Clean, Leave;
    forall c <- s.response | Idle(s, c) ensures f.writer in Mentions(s.response[c]) <==> c in l[q][n].lent {
      assert LentOk(s, l, q, n, c);
    }
    forall c: nat | c in l[q][n].lent ensures Idle(s, c) && c in s.response {
      assert LentOk(s, l, q, n, c);
    }
  }

  // ---------------------------------------------------------------------------------------------
  // Main results

  lemma {:induction false} StepMatches(s: State, l: Ledger, e: Event)
    requires Inv(s) && Matches(s, l) && Clean(s) && Enabled(s, e)
    ensures e.Return? && !Proper(l, e.request) ==> !Clean(Step(s, e))
    ensures !(e.Return? && !Proper(l, e.request)) ==> Clean(Step(s, e)) && Matches(Step(s, e), Note(l, e))
  {
    match e
    case Begin(q, w, c) => EnterMatches(s, l, q, w, c, e);
    case Pass(q, w, c) => EnterMatches(s, l, q, w, c, e);
    case Wrap(q) => WrapMatches(s, l, q);
    case Return(q, reuse) =>
      ReturnIsClean(s, l, q, reuse);
      if Proper(l, q) {
        ReturnMatches(s, l, q, reuse);
      }
    case _ => ForgetMatches(s, l, e);
  }

  lemma {:induction false} CleanFrom(s: State, l: Ledger, events: seq<Event>, t: State)
    requires Inv(s) && Matches(s, l) && Clean(s) && Run(s, events, t)
    ensures AllClean(s, events) <==> AllProper(l, events)
    decreases |events|
  {
    if events != [] {
      var e, rest := events[0], events[1..];
      StepKeeps(s, e);
      StepMatches(s, l, e);
      hide Inv, Matches, Step, Note, Proper;
      if !(e.Return? && !Proper(l, e.request)) {
        CleanFrom(Step(s, e), Note(l, e), rest, t);
      }
    }
  }

  /** In every run, no writer is ever in its pool while a Context refers to it, if and only if every handler that
      returns has left its Response as it was, and every Context that it used for a Pass has been taken again, or
      dropped, before that. */
  lemma {:induction false} CleanExactlyIfProper(events: seq<Event>, t: State)
    requires Run(Start(), events, t)
    ensures AllClean(Start(), events) <==> AllProper(map[], events)
  {
    CleanFrom(Start(), map[], events, t);
  }
}
