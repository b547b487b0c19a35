/** The onion model: how `Context.Next` advances over the snapshot of handlers of a route, and what
    `Compose` does to it.  This module is the specification (a pure machine) and its theory;
    OnionContext holds the imperative code that refines it.

    A handler is an arbitrary deterministic program of bounded length.  At every step its `plan` sees
    everything the Context has shown it so far (one View per step already taken, plus the current one) and
    picks the next action: write something to the Context, set Committed, call Next, or return. */
module Onion {

  datatype Outcome = Ok | Fail(code: int)

  datatype Event = Entered(name: int) | Did(data: int) | Committed

  /** What a handler can observe: the Context, and what its latest call of Next returned. */
  datatype View = View(committed: bool, trace: seq<Event>, last: Outcome)

  datatype Act = Emit(data: int) | Commit | CallNext | Return(outcome: Outcome)

  datatype Handler =
    | Leaf(name: int, plan: seq<View> -> Act, steps: nat)
    | Compose(handlers: seq<Handler>)

  /** A position in a handler list; every cursor of the source starts at -1. */
  type Index = i: int | -1 <= i witness -1

  /** What c.Next denotes: boundNext, or the closure installed by a running Compose, which remembers its
      position and the function it replaced. */
  datatype NextFn = BoundNext | Closure(list: seq<Handler>, index: Index, originalNext: NextFn)

  /** The chain state of a Context. */
  datatype State = State(
    committed: bool,
    trace: seq<Event>,
    handlers: seq<Handler>,
    handlerIndex: Index,
    next: NextFn)

  datatype Ran = Ran(st: State, out: Outcome)

  // ---------------------------------------------------------------------------------------------
  // Termination: the handlers still ahead of the cursors

  function Rest(list: seq<Handler>, index: Index): seq<Handler> {
    if index + 1 < |list| then list[index + 1..] else []
  }

  function HandlerWeight(h: Handler): nat {
    match h
    case Leaf(_, _, _) => 1
    case Compose(hs) => 2 + ListWeight(hs)
  }

  function ListWeight(hs: seq<Handler>): nat {
    if hs == [] then 0 else HandlerWeight(hs[0]) + ListWeight(hs[1..])
  }

  function NextWeight(next: NextFn): nat {
    match next
    case BoundNext => 0
    case Closure(list, index, original) => 1 + ListWeight(Rest(list, index)) + NextWeight(original)
  }

  /** Handlers remaining: every call of Next that enters a handler makes it smaller. */
  function Weight(s: State): nat {
    ListWeight(Rest(s.handlers, s.handlerIndex)) + NextWeight(s.next)
  }

  // ---------------------------------------------------------------------------------------------
  // The machine

  /** index++ */
  function Advanced(s: State): State
    requires s.next.Closure?
  {
    s.(next := s.next.(index := s.next.index + 1))
  }

  /** c.Next = originalNext */
  function Restored(s: State): State
    requires s.next.Closure?
  {
    s.(next := s.next.originalNext)
  }

  /** What the handler returned by Compose does before its c.Next(). */
  function Installed(s: State, list: seq<Handler>): State {
    s.(next := Closure(list, -1, s.next))
  }

  /** A run only adds to the trace, never clears Committed, and records setting it. */
  ghost predicate Grown(s: State, s': State) {
    && s.trace <= s'.trace
    && (s.committed ==> s'.committed)
    && (s.committed == (Committed in s.trace) ==> s'.committed == (Committed in s'.trace))
  }

  /** c.Next(). */
  function Next(s: State): (r: Ran)
    ensures Weight(r.st) <= Weight(s) && Grown(s, r.st)
    decreases Weight(s), 4, 0
  {
    if s.next.BoundNext? then ChainNext(s) else ComposedNext(s)
  }

  /** boundNext: one step over the snapshot; short-circuits once the Context is committed. */
  function ChainNext(s: State): (r: Ran)
    ensures Weight(r.st) <= Weight(s) && Grown(s, r.st)
    decreases Weight(s), 3, 0
  {
    if s.committed then Ran(s, Ok)
    else
      var s1 := s.(handlerIndex := s.handlerIndex + 1);
      if s1.handlerIndex >= |s1.handlers| then Ran(s1, Ok)
      else
        assert Rest(s.handlers, s.handlerIndex) ==
               [s1.handlers[s1.handlerIndex]] + Rest(s1.handlers, s1.handlerIndex);
        Enter(s1.handlers[s1.handlerIndex], s1)
  }

  /** The closure of the innermost running Compose; it does not look at `committed`. */
  function ComposedNext(s: State): (r: Ran)
    requires s.next.Closure?
    ensures Weight(r.st) <= Weight(s) && Grown(s, r.st)
    decreases Weight(s), 3, 0
  {
    var list, index := s.next.list, s.next.index;
    var s1 := Advanced(s);
    if index + 1 >= |list| then Next(Restored(s1))
    else
      assert Rest(list, index) == [list[index + 1]] + Rest(list, index + 1);
      Enter(list[index + 1], s1)
  }

  /** fn(c), for the handler the cursor has just reached. */
  function Enter(h: Handler, s: State): (r: Ran)
    ensures Weight(r.st) <= Weight(s) + HandlerWeight(h) && Grown(s, r.st)
    decreases Weight(s) + HandlerWeight(h), 2, 0
  {
    match h
    case Leaf(name, plan, steps) =>
      Run(plan, steps, [], Ok, s.(trace := s.trace + [Entered(name)]))
    case Compose(hs) =>
      assert Rest(hs, -1) == hs;
      Next(Installed(s, hs))
  }

  /** One action of a handler; `out` is what the handler's latest Next has returned so far, or, for Return,
      what the handler returns. */
  function Perform(act: Act, last: Outcome, s: State): (r: Ran)
    ensures Weight(r.st) <= Weight(s) && Grown(s, r.st)
    decreases Weight(s), 5, 0
  {
    match act
    case Emit(d) => Ran(s.(trace := s.trace + [Did(d)]), last)
    case Commit => Ran(s.(committed := true, trace := s.trace + [Committed]), last)
    case CallNext => Next(s)
    case Return(outcome) => Ran(s, outcome)
  }

  /** The body of a plain handler, from the point where it has seen `seen` and its latest Next returned `last`. */
  function Run(plan: seq<View> -> Act, steps: nat, seen: seq<View>, last: Outcome, s: State): (r: Ran)
    ensures Weight(r.st) <= Weight(s) && Grown(s, r.st)
    decreases Weight(s), 6, steps
  {
    if steps == 0 then Ran(s, Ok)
    else
      var now := seen + [View(s.committed, s.trace, last)];
      var r := Perform(plan(now), last, s);
      if plan(now).Return? then r else Run(plan, steps - 1, now, r.out, r.st)
  }

  /** The state in which the route function makes its first call of c.Next(). */
  function Initial(handlers: seq<Handler>): State {
    State(false, [], handlers, -1, BoundNext)
  }

  // ---------------------------------------------------------------------------------------------
  // Splicing: Compose(h1..hn) replaced by h1..hn

  function Leaves(h: Handler): seq<Handler> {
    match h
    case Leaf(_, _, _) => [h]
    case Compose(hs) => Splice(hs)
  }

  /** The snapshot with every Compose, however nested, replaced by its members. */
  function Splice(hs: seq<Handler>): seq<Handler> {
    if hs == [] then [] else Leaves(hs[0]) + Splice(hs[1..])
  }
}
