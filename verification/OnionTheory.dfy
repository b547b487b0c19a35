/** What the chain promises, for every list of handlers and every handler program. */
module OnionTheory {
  import opened Onion

  // ---------------------------------------------------------------------------------------------
  // The spliced run, annotated

  /** A plain handler still to be entered.  `guarded` says that boundNext, which checks Committed, is what
      leads to it: it is the first leaf of an entry of the snapshot, not a later member of a Compose. */
  datatype Item = Item(leaf: Handler, guarded: bool)

  /** The reference chain: a list of plain handlers and how far it has been consumed.  `exposed` records that
      Next was called on a committed Context when a later member of a Compose was next in line. */
  datatype Line = Line(committed: bool, trace: seq<Event>, items: seq<Item>, at: nat, exposed: bool) {
    ghost predicate Valid() {
      at <= |items| && forall i <- items :: i.leaf.Leaf?
    }

    function Left(): nat {
      if at <= |items| then |items| - at else 0
    }
  }

  ghost predicate Plain(items: seq<Item>) {
    forall i <- items :: i.leaf.Leaf?
  }

  datatype Walked = Walked(st: Line, out: Outcome)

  /** What every walk keeps: the line itself, and its direction. */
  ghost predicate Onward(t: Line, t': Line) {
    t'.Valid() && t'.items == t.items && t.at <= t'.at
  }

  function Walk(t: Line): (w: Walked)
    requires t.Valid()
    ensures Onward(t, w.st)
    decreases t.Left(), 1, 0
  {
    if t.committed then
      Walked(t.(exposed := t.exposed || (t.at < |t.items| && !t.items[t.at].guarded)), Ok)
    else if t.at == |t.items| then Walked(t, Ok)
    else
      var h := t.items[t.at].leaf;
      WalkBody(h.plan, h.steps, [], Ok, t.(at := t.at + 1, trace := t.trace + [Entered(h.name)]))
  }

  function WalkPerform(act: Act, last: Outcome, t: Line): (w: Walked)
    requires t.Valid()
    ensures Onward(t, w.st)
    decreases t.Left(), 2, 0
  {
    match act
    case Emit(d) => Walked(t.(trace := t.trace + [Did(d)]), last)
    case Commit => Walked(t.(committed := true, trace := t.trace + [Committed]), last)
    case CallNext => Walk(t)
    case Return(outcome) => Walked(t, outcome)
  }

  function WalkBody(plan: seq<View> -> Act, steps: nat, seen: seq<View>, last: Outcome, t: Line): (w: Walked)
    requires t.Valid()
    ensures Onward(t, w.st)
    decreases t.Left(), 3, steps
  {
    if steps == 0 then Walked(t, Ok)
    else
      var now := seen + [View(t.committed, t.trace, last)];
      var w := WalkPerform(plan(now), last, t);
      if plan(now).Return? then w else WalkBody(plan, steps - 1, now, w.out, w.st)
  }

  function Unguarded(leaves: seq<Handler>): (items: seq<Item>)
    requires forall l <- leaves :: l.Leaf?
    ensures |items| == |leaves|
    ensures forall k :: 0 <= k < |items| ==> items[k] == Item(leaves[k], false)
  {
    seq(|leaves|, k requires 0 <= k < |leaves| => Item(leaves[k], false))
  }

  function EntryItems(h: Handler): (items: seq<Item>)
    ensures Plain(items)
  {
    LeavesArePlain(h);
    var items := Unguarded(Leaves(h));
    if items == [] then [] else items[0 := items[0].(guarded := true)]
  }

  /** The spliced snapshot; only the first leaf of each entry is guarded. */
  function SnapshotItems(hs: seq<Handler>): (items: seq<Item>)
    ensures Plain(items)
  {
    if hs == [] then [] else EntryItems(hs[0]) + SnapshotItems(hs[1..])
  }

  function NextItems(next: NextFn): (items: seq<Item>)
    ensures forall i <- items :: i.leaf.Leaf? && !i.guarded
  {
    match next
    case BoundNext => []
    case Closure(list, index, original) =>
      ListLeavesArePlain(Rest(list, index));
      Unguarded(Splice(Rest(list, index))) + NextItems(original)
  }

  /** What a chain state still has in front of it. */
  function Todo(s: State): (items: seq<Item>)
    ensures Plain(items)
  {
    NextItems(s.next) + SnapshotItems(Rest(s.handlers, s.handlerIndex))
  }

  function InitialLine(hs: seq<Handler>): Line {
    Line(false, [], SnapshotItems(hs), 0, false)
  }

  lemma {:induction false} LeavesArePlain(h: Handler)
    ensures forall l <- Leaves(h) :: l.Leaf?
    decreases h
  {
    match h
    case Leaf(_, _, _) =>
    case Compose(hs) => ListLeavesArePlain(hs);
  }

  lemma {:induction false} ListLeavesArePlain(hs: seq<Handler>)
    ensures forall l <- Splice(hs) :: l.Leaf?
    decreases hs
  {
    if hs != [] {
      LeavesArePlain(hs[0]);
      ListLeavesArePlain(hs[1..]);
    }
  }

  // ---------------------------------------------------------------------------------------------
  // One call of Next either does nothing or enters the first leaf still ahead

  ghost predicate Reaches(s: State) {
    Todo(s) != [] && (s.committed ==> !Todo(s)[0].guarded)
  }

  /** Next, through any number of cursors that are exhausted or that lead into further Composes, enters
      exactly the leaf at the head of Todo, or nothing at all. */
  lemma {:induction false} Arrive(s: State) returns (h: Handler, s1: State)
    ensures s1.committed == s.committed && s1.trace == s.trace
    ensures Reaches(s) ==>
              && h.Leaf? && Next(s) == Enter(h, s1) && Weight(s1) < Weight(s)
              && h == Todo(s)[0].leaf && Todo(s1) == Todo(s)[1..]
    ensures !Reaches(s) ==> Next(s) == Ran(s1, Ok) && Todo(s1) == Todo(s)
    decreases Weight(s)
  {
    if s.next.Closure? {
      h, s1 := ArriveThroughCompose(s);
    } else if s.committed {
      h, s1 := Leaf(0, _ => Commit, 0), s;
      SnapshotStartsGuarded(Rest(s.handlers, s.handlerIndex));
    } else if s.handlerIndex + 1 >= |s.handlers| {
      h, s1 := Leaf(0, _ => Commit, 0), s.(handlerIndex := s.handlerIndex + 1);
    } else {
      h, s1 := ArriveThroughSnapshot(s);
    }
  }

  /** A committed Context with no running Compose in front enters nothing more. */
  lemma {:induction false} SnapshotStartsGuarded(hs: seq<Handler>)
    ensures SnapshotItems(hs) != [] ==> SnapshotItems(hs)[0].guarded
  {
    if hs != [] {
      SnapshotStartsGuarded(hs[1..]);
    }
  }

  lemma {:induction false} ArriveThroughSnapshot(s: State) returns (h: Handler, s1: State)
    requires s.next.BoundNext? && !s.committed && s.handlerIndex + 1 < |s.handlers|
    ensures s1.committed == s.committed && s1.trace == s.trace
    ensures Reaches(s) ==>
              && h.Leaf? && Next(s) == Enter(h, s1) && Weight(s1) < Weight(s)
              && h == Todo(s)[0].leaf && Todo(s1) == Todo(s)[1..]
    ensures !Reaches(s) ==> Next(s) == Ran(s1, Ok) && Todo(s1) == Todo(s)
    decreases Weight(s), 0
  {
    var h0, s0 := s.handlers[s.handlerIndex + 1], s.(handlerIndex := s.handlerIndex + 1);
    SnapshotStep(s);
    match h0
    case Leaf(_, _, _) =>
      h, s1 := h0, s0;
    case Compose(hs) =>
      ArriveInto(s0, hs);
      h, s1 := Arrive(Installed(s0, hs));
  }

  /** Reaching the next entry of the snapshot, whose first leaf is guarded there and unguarded once its
      Compose is running. */
  lemma SnapshotStep(s: State)
    requires s.next.BoundNext? && !s.committed && s.handlerIndex + 1 < |s.handlers|
    ensures var h, s1 := s.handlers[s.handlerIndex + 1], s.(handlerIndex := s.handlerIndex + 1);
            && Next(s) == Enter(h, s1)
            && Weight(s) == Weight(s1) + HandlerWeight(h)
            && (h.Leaf? ==> Todo(s) == [Item(h, true)] + Todo(s1))
            && (h.Compose? ==>
                  && (forall l <- Splice(h.handlers) :: l.Leaf?)
                  && var inside := Unguarded(Splice(h.handlers)) + Todo(s1);
                     if Todo(s) == [] then inside == []
                     else inside != [] && inside[0].leaf == Todo(s)[0].leaf && inside[1..] == Todo(s)[1..])
  {
    var s1 := s.(handlerIndex := s.handlerIndex + 1);
    var h := s.handlers[s1.handlerIndex];
    var rest := Rest(s1.handlers, s1.handlerIndex);
    assert Rest(s.handlers, s.handlerIndex) == [h] + rest;
    assert Todo(s) == EntryItems(h) + SnapshotItems(rest) && Todo(s1) == SnapshotItems(rest) by {
      var all := Rest(s.handlers, s.handlerIndex);
      assert all[0] == h && all[1..] == rest;
    }
    EntryGuardsFirst(h, SnapshotItems(rest));
  }

  lemma EntryGuardsFirst(h: Handler, after: seq<Item>)
    ensures h.Leaf? ==> EntryItems(h) == [Item(h, true)]
    ensures h.Compose? ==>
              && (forall l <- Splice(h.handlers) :: l.Leaf?)
              && var listed, inside := EntryItems(h) + after, Unguarded(Splice(h.handlers)) + after;
                 if listed == [] then inside == []
                 else inside != [] && inside[0].leaf == listed[0].leaf && inside[1..] == listed[1..]
  {
    LeavesArePlain(h);
    match h
    case Leaf(_, _, _) =>
    case Compose(hs) =>
      assert Leaves(h) == Splice(hs);
      var e, u := EntryItems(h), Unguarded(Splice(hs));
      assert |e| == |u| && forall k :: 1 <= k < |u| ==> e[k] == u[k];
      if e == [] {
        assert e + after == after == u + after;
      } else {
        assert (e + after)[1..] == e[1..] + after;
        assert (u + after)[1..] == u[1..] + after;
      }
  }

  lemma {:induction false} ArriveThroughCompose(s: State) returns (h: Handler, s1: State)
    requires s.next.Closure?
    ensures s1.committed == s.committed && s1.trace == s.trace
    ensures Reaches(s) ==>
              && h.Leaf? && Next(s) == Enter(h, s1) && Weight(s1) < Weight(s)
              && h == Todo(s)[0].leaf && Todo(s1) == Todo(s)[1..]
    ensures !Reaches(s) ==> Next(s) == Ran(s1, Ok) && Todo(s1) == Todo(s)
    decreases Weight(s), 0
  {
    var list, index := s.next.list, s.next.index;
    var s0 := Advanced(s);
    ComposeStep(s);
    ComposeStepTodo(s);
    if index + 1 >= |list| {
      h, s1 := Arrive(Restored(s0));
    } else {
      match list[index + 1]
      case Leaf(_, _, _) =>
        h, s1 := list[index + 1], s0;
      case Compose(hs) =>
        ArriveInto(s0, hs);
        h, s1 := Arrive(Installed(s0, hs));
    }
  }

  /** One step of the innermost Compose: it is exhausted and gives way, or its next member is called. */
  lemma ComposeStep(s: State)
    requires s.next.Closure?
    ensures var list, index, s1 := s.next.list, s.next.index, Advanced(s);
            if index + 1 >= |list| then Next(s) == Next(Restored(s1)) && Weight(Restored(s1)) < Weight(s)
            else Next(s) == Enter(list[index + 1], s1) && Weight(s) == Weight(s1) + HandlerWeight(list[index + 1])
  {
    hide Run, Perform, ChainNext;
    var list, index := s.next.list, s.next.index;
    if index + 1 < |list| {
      var h, rest := list[index + 1], Rest(list, index + 1);
      assert Rest(list, index) == [h] + rest && ([h] + rest)[1..] == rest;
    }
  }

  lemma ComposeStepTodo(s: State)
    requires s.next.Closure?
    ensures var list, index, s1 := s.next.list, s.next.index, Advanced(s);
            if index + 1 >= |list| then Todo(Restored(s1)) == Todo(s)
            else
              var leaves := Leaves(list[index + 1]);
              (forall l <- leaves :: l.Leaf?) && Todo(s) == Unguarded(leaves) + Todo(s1)
  {
    var list, index := s.next.list, s.next.index;
    if index + 1 < |list| {
      hide Leaves, Splice, SnapshotItems, Unguarded;
      var h, rest := list[index + 1], Rest(list, index + 1);
      assert Rest(list, index) == [h] + rest;
      MembersAhead(h, rest);
      assert Rest(list, index + 1) == Rest(Advanced(s).next.list, Advanced(s).next.index);
      Regroup(Unguarded(Leaves(h)), Unguarded(Splice(rest)), NextItems(s.next.originalNext),
              SnapshotItems(Rest(s.handlers, s.handlerIndex)));
    }
  }

  lemma Regroup<T>(a: seq<T>, b: seq<T>, c: seq<T>, d: seq<T>)
    ensures ((a + b) + c) + d == a + ((b + c) + d)
  {
  }

  /** The leaves of the member at the head, then the leaves of the members after it. */
  lemma MembersAhead(h: Handler, rest: seq<Handler>)
    ensures (forall l <- Leaves(h) :: l.Leaf?) && (forall l <- Splice(rest) :: l.Leaf?)
            && (forall l <- Splice([h] + rest) :: l.Leaf?)
    ensures Unguarded(Splice([h] + rest)) == Unguarded(Leaves(h)) + Unguarded(Splice(rest))
  {
    LeavesArePlain(h);
    ListLeavesArePlain(rest);
    assert ([h] + rest)[1..] == rest;
  }

  /** Entering a Compose puts its leaves in front. */
  lemma ArriveInto(s: State, hs: seq<Handler>)
    ensures Leaves(Compose(hs)) == Splice(hs) && forall l <- Splice(hs) :: l.Leaf?
    ensures Todo(Installed(s, hs)) == Unguarded(Splice(hs)) + Todo(s)
    ensures Weight(Installed(s, hs)) < Weight(s) + HandlerWeight(Compose(hs))
  {
    ListLeavesArePlain(hs);
    assert Rest(hs, -1) == hs;
  }

  // ---------------------------------------------------------------------------------------------
  // Entering after Committed

  /** No handler is entered once Committed has been set. */
  ghost predicate Clean(trace: seq<Event>) {
    forall i, j :: 0 <= i < j < |trace| && trace[i] == Committed ==> !trace[j].Entered?
  }

  ghost predicate Truthful(committed: bool, trace: seq<Event>) {
    committed == (Committed in trace)
  }

  lemma CleanPrefix(a: seq<Event>, b: seq<Event>)
    requires a <= b && Clean(b)
    ensures Clean(a)
  {
    forall i, j | 0 <= i < j < |a| && a[i] == Committed ensures !a[j].Entered? {
      assert a[i] == b[i] && a[j] == b[j];
    }
  }

  /** The annotated spliced run never enters a handler after Committed, never un-exposes itself, and stays
      committed. */
  lemma {:induction false} WalkIsClean(t: Line)
    requires t.Valid()
    requires Clean(t.trace) && Truthful(t.committed, t.trace)
    ensures var t' := Walk(t).st; Clean(t'.trace) && Truthful(t'.committed, t'.trace)
    ensures t.exposed ==> Walk(t).st.exposed
    decreases t.Left(), 1, 0
  {
    if !t.committed && t.at < |t.items| {
      var h := t.items[t.at].leaf;
      WalkBodyIsClean(h.plan, h.steps, [], Ok, t.(at := t.at + 1, trace := t.trace + [Entered(h.name)]));
    }
  }

  lemma {:induction false} WalkBodyIsClean(plan: seq<View> -> Act, steps: nat, seen: seq<View>, last: Outcome, t: Line)
    requires t.Valid()
    requires Clean(t.trace) && Truthful(t.committed, t.trace)
    ensures var t' := WalkBody(plan, steps, seen, last, t).st; Clean(t'.trace) && Truthful(t'.committed, t'.trace)
    ensures t.exposed ==> WalkBody(plan, steps, seen, last, t).st.exposed
    decreases t.Left(), 3, steps
  {
    if steps != 0 {
      var k: nat := steps - 1;
      var now := seen + [View(t.committed, t.trace, last)];
      if plan(now) == CallNext { WalkIsClean(t); }
      var w := WalkPerform(plan(now), last, t);
      if !plan(now).Return? { WalkBodyIsClean(plan, k, now, w.out, w.st); }
    }
  }

  // ---------------------------------------------------------------------------------------------
  // The chain with its Composes walks the spliced line in lockstep until it is exposed

  ghost predicate InStep(s: State, t: Line) {
    s.committed == t.committed && s.trace == t.trace && !t.exposed
    && t.Valid() && Todo(s) == t.items[t.at..]
  }

  /** Still in step, or the chain has entered a handler that the spliced run does not. */
  ghost predicate Related(r: Ran, w: Walked) {
    if w.st.exposed then !Clean(r.st.trace) else InStep(r.st, w.st) && r.out == w.out
  }

  lemma {:induction false} NextInStep(s: State, t: Line)
    requires InStep(s, t) && Clean(s.trace) && Truthful(s.committed, s.trace)
    ensures Related(Next(s), Walk(t))
    decreases Weight(s), 1, 0
  {
    var h, s1 := Arrive(s);
    if Reaches(s) {
      var s2 := s1.(trace := s1.trace + [Entered(h.name)]);
      assert Next(s) == Run(h.plan, h.steps, [], Ok, s2);
      if s.committed {
        EnteringAfterCommit(s.trace, h.name, Next(s).st.trace);
      } else {
        var t2 := t.(at := t.at + 1, trace := t.trace + [Entered(h.name)]);
        assert Walk(t) == WalkBody(h.plan, h.steps, [], Ok, t2);
        assert InStep(s2, t2) && Clean(s2.trace) && Truthful(s2.committed, s2.trace);
        hide Run, WalkBody, Todo, Next, Walk;
        BodyInStep(h.plan, h.steps, [], Ok, s2, t2);
      }
    }
  }

  lemma EnteringAfterCommit(trace: seq<Event>, name: int, end: seq<Event>)
    requires Committed in trace && trace + [Entered(name)] <= end
    ensures !Clean(end)
  {
    var i :| 0 <= i < |trace| && trace[i] == Committed;
    var entered := trace + [Entered(name)];
    assert entered[i] == Committed && entered[|trace|].Entered?;
    assert end[i] == entered[i] && end[|trace|] == entered[|trace|];
  }

  lemma {:induction false} PerformInStep(act: Act, last: Outcome, s: State, t: Line)
    requires InStep(s, t) && Clean(s.trace) && Truthful(s.committed, s.trace)
    ensures Related(Perform(act, last, s), WalkPerform(act, last, t))
    ensures var t' := WalkPerform(act, last, t).st; Clean(t'.trace) && Truthful(t'.committed, t'.trace)
    decreases Weight(s), 2, 0
  {
    if act == CallNext {
      NextInStep(s, t);
      WalkIsClean(t);
    }
  }

  lemma {:induction false} BodyInStep(plan: seq<View> -> Act, steps: nat, seen: seq<View>, last: Outcome,
                                      s: State, t: Line)
    requires InStep(s, t) && Clean(s.trace) && Truthful(s.committed, s.trace)
    ensures Related(Run(plan, steps, seen, last, s), WalkBody(plan, steps, seen, last, t))
    decreases Weight(s), 3, steps
  {
    hide Perform, WalkPerform, Clean, Next, Walk, ChainNext, ComposedNext, Enter, Todo, Weight;
    if steps != 0 {
      var k: nat := steps - 1;
      var now := seen + [View(s.committed, s.trace, last)];
      PerformInStep(plan(now), last, s, t);
      var r, w := Perform(plan(now), last, s), WalkPerform(plan(now), last, t);
      if plan(now).Return? {
        assert Run(plan, steps, seen, last, s) == r && WalkBody(plan, steps, seen, last, t) == w;
      } else {
        assert Run(plan, steps, seen, last, s) == Run(plan, k, now, r.out, r.st);
        assert WalkBody(plan, steps, seen, last, t) == WalkBody(plan, k, now, w.out, w.st);
        if w.st.exposed {
          StaysExposed(plan, k, now, r, w);
        } else {
          BodyInStep(plan, k, now, r.out, r.st, w.st);
        }
      }
    }
  }

  lemma StaysExposed(plan: seq<View> -> Act, steps: nat, seen: seq<View>, r: Ran, w: Walked)
    requires w.st.Valid()
    requires w.st.exposed && !Clean(r.st.trace)
    requires Clean(w.st.trace) && Truthful(w.st.committed, w.st.trace)
    ensures WalkBody(plan, steps, seen, w.out, w.st).st.exposed
    ensures !Clean(Run(plan, steps, seen, r.out, r.st).st.trace)
  {
    WalkBodyIsClean(plan, steps, seen, w.out, w.st);
    var end := Run(plan, steps, seen, r.out, r.st).st.trace;
    if Clean(end) { CleanPrefix(r.st.trace, end); }
  }

  // ---------------------------------------------------------------------------------------------
  // The plain chain over the spliced snapshot

  /** The same line of handlers, whatever leads to each of them. */
  ghost predicate SameLine(t: Line, u: Line) {
    && t.Valid() && u.Valid()
    && t.committed == u.committed && t.trace == u.trace && t.at == u.at && |t.items| == |u.items|
    && forall k :: 0 <= k < |t.items| ==> t.items[k].leaf == u.items[k].leaf
  }

  lemma {:induction false} WalkIgnoresGuards(t: Line, u: Line)
    requires SameLine(t, u)
    ensures SameLine(Walk(t).st, Walk(u).st) && Walk(t).out == Walk(u).out
    decreases t.Left(), 1, 0
  {
    if !t.committed && t.at < |t.items| {
      var h := t.items[t.at].leaf;
      var tr := t.trace + [Entered(h.name)];
      WalkBodyIgnoresGuards(h.plan, h.steps, [], Ok, t.(at := t.at + 1, trace := tr), u.(at := u.at + 1, trace := tr));
    }
  }

  lemma {:induction false} WalkBodyIgnoresGuards(plan: seq<View> -> Act, steps: nat, seen: seq<View>, last: Outcome,
                                                 t: Line, u: Line)
    requires SameLine(t, u)
    ensures SameLine(WalkBody(plan, steps, seen, last, t).st, WalkBody(plan, steps, seen, last, u).st)
    ensures WalkBody(plan, steps, seen, last, t).out == WalkBody(plan, steps, seen, last, u).out
    decreases t.Left(), 3, steps
  {
    if steps != 0 {
      var k: nat := steps - 1;
      var now := seen + [View(t.committed, t.trace, last)];
      if plan(now) == CallNext { WalkIgnoresGuards(t, u); }
      var w, x := WalkPerform(plan(now), last, t), WalkPerform(plan(now), last, u);
      if !plan(now).Return? { WalkBodyIgnoresGuards(plan, k, now, w.out, w.st, x.st); }
    }
  }

  ghost predicate AllGuarded(items: seq<Item>) {
    forall i <- items :: i.guarded
  }

  lemma {:induction false} PlainSnapshotIsGuarded(leaves: seq<Handler>)
    requires forall l <- leaves :: l.Leaf?
    ensures AllGuarded(SnapshotItems(leaves)) && |SnapshotItems(leaves)| == |leaves|
    ensures forall k :: 0 <= k < |leaves| ==> SnapshotItems(leaves)[k].leaf == leaves[k]
  {
    if leaves != [] {
      PlainSnapshotIsGuarded(leaves[1..]);
      EntryGuardsFirst(leaves[0], []);
      assert SnapshotItems(leaves) == [Item(leaves[0], true)] + SnapshotItems(leaves[1..]);
    }
  }

  lemma {:induction false} SnapshotLeaves(hs: seq<Handler>)
    ensures |SnapshotItems(hs)| == |Splice(hs)|
    ensures forall k :: 0 <= k < |Splice(hs)| ==> SnapshotItems(hs)[k].leaf == Splice(hs)[k]
  {
    if hs != [] {
      SnapshotLeaves(hs[1..]);
      LeavesArePlain(hs[0]);
    }
  }

  /** A line in which everything is guarded is never exposed. */
  lemma {:induction false} GuardedIsNeverExposed(t: Line)
    requires t.Valid()
    requires AllGuarded(t.items) && !t.exposed
    ensures !Walk(t).st.exposed
    decreases t.Left(), 1, 0
  {
    if !t.committed && t.at < |t.items| {
      var h := t.items[t.at].leaf;
      GuardedBodyIsNeverExposed(h.plan, h.steps, [], Ok, t.(at := t.at + 1, trace := t.trace + [Entered(h.name)]));
    }
  }

  lemma {:induction false} GuardedBodyIsNeverExposed(plan: seq<View> -> Act, steps: nat, seen: seq<View>,
                                                     last: Outcome, t: Line)
    requires t.Valid()
    requires AllGuarded(t.items) && !t.exposed
    ensures !WalkBody(plan, steps, seen, last, t).st.exposed
    decreases t.Left(), 3, steps
  {
    if steps != 0 {
      var k: nat := steps - 1;
      var now := seen + [View(t.committed, t.trace, last)];
      if plan(now) == CallNext { GuardedIsNeverExposed(t); }
      var w := WalkPerform(plan(now), last, t);
      if !plan(now).Return? { GuardedBodyIsNeverExposed(plan, k, now, w.out, w.st); }
    }
  }

  // ---------------------------------------------------------------------------------------------
  // Main results

  /** Some call of Next is made on a committed Context while a later member of a Compose is next in line. */
  ghost predicate Exposed(hs: seq<Handler>) {
    Walk(InitialLine(hs)).st.exposed
  }

  lemma TodoOfInitial(hs: seq<Handler>)
    ensures Todo(Initial(hs)) == SnapshotItems(hs)
  {
    assert Rest(hs, -1) == hs;
  }

  lemma ChainWalksTheLine(hs: seq<Handler>)
    ensures Related(Next(Initial(hs)), Walk(InitialLine(hs)))
    ensures Clean(Walk(InitialLine(hs)).st.trace)
  {
    TodoOfInitial(hs);
    NextInStep(Initial(hs), InitialLine(hs));
    WalkIsClean(InitialLine(hs));
  }

  /** In a chain without Compose no handler is entered after Committed. */
  lemma PlainChainIsClean(leaves: seq<Handler>)
    requires forall l <- leaves :: l.Leaf?
    ensures Clean(Next(Initial(leaves)).st.trace)
  {
    ChainWalksTheLine(leaves);
    PlainSnapshotIsGuarded(leaves);
    GuardedIsNeverExposed(InitialLine(leaves));
  }

  /** Compose, anywhere in the chain and however nested, gives the run of the spliced chain exactly when the
      spliced chain never calls Next on a committed Context with a later member of a Compose next in line. */
  lemma ComposeIsSplicing(hs: seq<Handler>)
    ensures var a, b := Next(Initial(hs)), Next(Initial(Splice(hs)));
            (a.out == b.out && a.st.trace == b.st.trace && a.st.committed == b.st.committed) <==> !Exposed(hs)
  {
    var leaves := Splice(hs);
    ListLeavesArePlain(hs);
    ChainWalksTheLine(hs);
    ChainWalksTheLine(leaves);
    PlainSnapshotIsGuarded(leaves);
    GuardedIsNeverExposed(InitialLine(leaves));
    SnapshotLeaves(hs);
    WalkIgnoresGuards(InitialLine(hs), InitialLine(leaves));
  }

  /** ... and that is also exactly when the composed chain enters no handler after Committed. */
  lemma ExposedIffEnteredAfterCommit(hs: seq<Handler>)
    ensures Exposed(hs) <==> !Clean(Next(Initial(hs)).st.trace)
  {
    ChainWalksTheLine(hs);
  }

  /** A handler that does not call Next once it can see that the Context is committed. */
  ghost predicate Respectful(h: Handler) {
    h.Leaf? ==> forall seen: seq<View> :: seen != [] && seen[|seen| - 1].committed ==> h.plan(seen) != CallNext
  }

  lemma {:induction false} RespectfulIsNeverExposed(t: Line)
    requires t.Valid() && forall i <- t.items :: Respectful(i.leaf)
    requires !t.exposed && !t.committed
    ensures !Walk(t).st.exposed
    decreases t.Left(), 1, 0
  {
    if t.at < |t.items| {
      var h := t.items[t.at].leaf;
      RespectfulBody(h, h.steps, [], Ok, t.(at := t.at + 1, trace := t.trace + [Entered(h.name)]));
    }
  }

  lemma {:induction false} RespectfulBody(h: Handler, steps: nat, seen: seq<View>, last: Outcome, t: Line)
    requires h.Leaf? && Respectful(h)
    requires t.Valid() && forall i <- t.items :: Respectful(i.leaf)
    requires !t.exposed
    ensures !WalkBody(h.plan, steps, seen, last, t).st.exposed
    decreases t.Left(), 3, steps
  {
    if steps != 0 {
      var k: nat := steps - 1;
      var now := seen + [View(t.committed, t.trace, last)];
      assert now[|now| - 1].committed == t.committed;
      if h.plan(now) == CallNext { RespectfulIsNeverExposed(t); }
      var w := WalkPerform(h.plan(now), last, t);
      if !h.plan(now).Return? { RespectfulBody(h, k, now, w.out, w.st); }
    }
  }

  /** Compose is splicing for all handlers that look at Committed before calling Next. */
  lemma ComposeOfRespectfulHandlers(hs: seq<Handler>)
    requires forall l <- Splice(hs) :: Respectful(l)
    ensures var a, b := Next(Initial(hs)), Next(Initial(Splice(hs)));
            a.out == b.out && a.st.trace == b.st.trace && a.st.committed == b.st.committed
  {
    SnapshotLeaves(hs);
    ListLeavesArePlain(hs);
    forall i <- SnapshotItems(hs) ensures i.leaf.Leaf? && Respectful(i.leaf) {
      var k :| 0 <= k < |SnapshotItems(hs)| && SnapshotItems(hs)[k] == i;
      assert Splice(hs)[k] in Splice(hs);
    }
    RespectfulIsNeverExposed(InitialLine(hs));
    ComposeIsSplicing(hs);
  }

  function CommitThenNext(): Handler {
    Leaf(0, (seen: seq<View>) => if |seen| == 1 then Commit else CallNext, 2)
  }

  function Idle(): Handler {
    Leaf(1, (seen: seq<View>) => Return(Ok), 1)
  }

  /** The premise is needed: in a Compose, a handler that commits and then calls Next still reaches its
      neighbour; in the spliced chain it does not. */
  lemma CommitThenNextTellsComposeApart()
    ensures var hs := [Compose([CommitThenNext(), Idle()])];
            Exposed(hs) && Next(Initial(hs)).st.trace != Next(Initial(Splice(hs))).st.trace
  {
    var c, i := CommitThenNext(), Idle();
    var hs := [Compose([c, i])];
    var items := SnapshotItems(hs);
    assert Leaves(hs[0]) == [c, i] by {
      assert [c, i][1..] == [i];
      assert Splice([i]) == [i];
      assert Splice([c, i]) == [c] + Splice([i]);
    }
    assert items == EntryItems(hs[0]) + SnapshotItems([]) == [Item(c, true), Item(i, false)];
    var t1 := Line(false, [Entered(0)], items, 1, false);
    var t2 := Line(true, [Entered(0), Committed], items, 1, false);
    var v1 := [View(false, t1.trace, Ok)];
    assert [] + v1 == v1 && t1.trace + [Committed] == t2.trace;
    assert InitialLine(hs).(at := 1, trace := [] + [Entered(0)]) == t1;
    assert Walk(InitialLine(hs)) == WalkBody(c.plan, 2, [], Ok, t1);
    assert WalkBody(c.plan, 2, [], Ok, t1) == WalkBody(c.plan, 1, v1, Ok, t2);
    assert Walk(t2).st.exposed;
    assert WalkBody(c.plan, 1, v1, Ok, t2) == WalkBody(c.plan, 0, v1 + [View(true, t2.trace, Ok)], Ok, Walk(t2).st);
    ComposeIsSplicing(hs);
    ExposedIffEnteredAfterCommit(hs);
    PlainChainIsClean(Splice(hs));
  }

  // ---------------------------------------------------------------------------------------------
  // Order

  function EnteredNames(trace: seq<Event>): seq<int> {
    if trace == [] then []
    else
      var last := trace[|trace| - 1];
      EnteredNames(trace[..|trace| - 1]) + (if last.Entered? then [last.name] else [])
  }

  function Names(items: seq<Item>): (names: seq<int>)
    requires Plain(items)
    ensures |names| == |items|
  {
    seq(|items|, k requires 0 <= k < |items| => items[k].leaf.name)
  }

  /** The leaves entered so far followed by the leaves still ahead. */
  ghost function WholeLine(s: State): seq<int> {
    EnteredNames(s.trace) + Names(Todo(s))
  }

  lemma {:induction false} NextInOrder(s: State)
    ensures WholeLine(Next(s).st) == WholeLine(s)
    decreases Weight(s), 1, 0
  {
    var h, s1 := Arrive(s);
    if Reaches(s) {
      var s2 := s1.(trace := s1.trace + [Entered(h.name)]);
      EnteringKeepsTheLine(s, h, s1);
      hide Run, Perform, ChainNext, ComposedNext, Todo, WholeLine;
      BodyInOrder(h.plan, h.steps, [], Ok, s2);
    }
  }

  lemma EnteringKeepsTheLine(s: State, h: Handler, s1: State)
    requires h.Leaf? && Todo(s) != [] && h == Todo(s)[0].leaf && Todo(s1) == Todo(s)[1..] && s1.trace == s.trace
    ensures WholeLine(s1.(trace := s1.trace + [Entered(h.name)])) == WholeLine(s)
  {
    var s2 := s1.(trace := s1.trace + [Entered(h.name)]);
    assert s2.trace[..|s1.trace|] == s1.trace;
    assert Todo(s2) == Todo(s1);
    assert Names(Todo(s)) == [h.name] + Names(Todo(s1));
  }

  lemma {:induction false} PerformInOrder(act: Act, last: Outcome, s: State)
    ensures WholeLine(Perform(act, last, s).st) == WholeLine(s)
    decreases Weight(s), 2, 0
  {
    if act == CallNext {
      NextInOrder(s);
    } else if !act.Return? {
      var s1 := Perform(act, last, s).st;
      assert s1.trace[..|s.trace|] == s.trace;
      assert EnteredNames(s1.trace) == EnteredNames(s.trace);
      assert Todo(s1) == Todo(s);
    }
  }

  lemma {:induction false} BodyInOrder(plan: seq<View> -> Act, steps: nat, seen: seq<View>, last: Outcome, s: State)
    ensures WholeLine(Run(plan, steps, seen, last, s).st) == WholeLine(s)
    decreases Weight(s), 3, steps
  {
    hide Perform, WalkPerform, Clean, Next, Walk, ChainNext, ComposedNext, Enter, Todo, Weight;
    if steps != 0 {
      var k: nat := steps - 1;
      var now := seen + [View(s.committed, s.trace, last)];
      PerformInOrder(plan(now), last, s);
      var r := Perform(plan(now), last, s);
      if !plan(now).Return? {
        BodyInOrder(plan, k, now, r.out, r.st);
      }
    }
  }

  /** Whatever the handlers do, and however often Next is called, the handlers entered are a prefix of the
      spliced snapshot: each at most once, in registration order. */
  lemma HandlersEnteredInOrder(hs: seq<Handler>)
    ensures var entered := EnteredNames(Next(Initial(hs)).st.trace);
            && |entered| <= |Splice(hs)|
            && forall k :: 0 <= k < |entered| ==> Splice(hs)[k].Leaf? && entered[k] == Splice(hs)[k].name
  {
    TodoOfInitial(hs);
    SnapshotLeaves(hs);
    NextInOrder(Initial(hs));
    var s' := Next(Initial(hs)).st;
    var entered := EnteredNames(s'.trace);
    var names := Names(SnapshotItems(hs));
    assert entered + Names(Todo(s')) == names;
    assert forall k :: 0 <= k < |entered| ==> entered[k] == names[k];
    ListLeavesArePlain(hs);
  }
}
