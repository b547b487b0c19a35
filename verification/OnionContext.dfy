/** The chain as the Context carries it: fields that Next and Compose update in place.  Every method is
    proved to take the Context exactly where the machine of module Onion goes. */
module OnionContext {
  import opened Onion

  /** The variables captured by the closure that a running Compose assigns to c.Next. */
  class Frame {
    const list: seq<Handler>
    const originalNext: Frame?  // null stands for boundNext
    var index: Index

    constructor (list: seq<Handler>, originalNext: Frame?)
      ensures this.list == list && this.originalNext == originalNext && index == -1
    {
      this.list, this.originalNext, index := list, originalNext, -1;
    }
  }

  /** The function that the topmost of these frames denotes. */
  ghost function Denotes(frames: seq<Frame>): (next: NextFn)
    reads frames
    ensures frames == [] <==> next.BoundNext?
  {
    if frames == [] then BoundNext
    else
      var top := frames[|frames| - 1];
      Closure(top.list, top.index, Denotes(frames[..|frames| - 1]))
  }

  class Context {
    var committed: bool
    var trace: seq<Event>
    var handlers: seq<Handler>
    var handlerIndex: Index
    var next: Frame?
    ghost var frames: seq<Frame>  // the closures that next leads through, the innermost Compose last
    ghost var Repr: set<Frame>    // every closure installed so far

    ghost predicate Valid()
      reads this
    {
      && next == (if frames == [] then null else frames[|frames| - 1])
      && (frames != [] ==> frames[0].originalNext == null)
      && (forall i, j :: 0 <= i < |frames| && j == i + 1 && j < |frames| ==> frames[j].originalNext == frames[i])
      && (forall i, j :: 0 <= i < j < |frames| ==> frames[i] != frames[j])
      && (forall f <- frames :: f in Repr)
    }

    ghost function Abs(): State
      reads this, frames
    {
      State(committed, trace, handlers, handlerIndex, Denotes(frames))
    }

    /** A Context as the route function hands it to the chain. */
    constructor (handlers: seq<Handler>)
      ensures Valid() && Repr == {}
      ensures Abs() == Initial(handlers)
    {
      committed, trace := false, [];
      this.handlers, handlerIndex := handlers, -1;
      next, frames, Repr := null, [], {};
    }

    method Next() returns (out: Outcome)
      requires Valid()
      modifies this, Repr
      ensures Valid() && fresh(Repr - old(Repr))
      ensures Ran(Abs(), out) == old(Onion.Next(Abs()))
      decreases Weight(Abs()), 4, 0
    {
      if next == null {
        out := ChainNext();
      } else {
        out := ComposedNext(next);
      }
    }

    method ChainNext() returns (out: Outcome)
      requires Valid() && frames == []
      modifies this, Repr
      ensures Valid() && fresh(Repr - old(Repr))
      ensures Ran(Abs(), out) == old(Onion.ChainNext(Abs()))
      decreases Weight(Abs()), 3, 0
    {
      if committed {
        return Ok;
      }
      ghost var s := Abs();
      handlerIndex := handlerIndex + 1;
      if handlerIndex >= |handlers| {
        return Ok;
      }
      assert Rest(s.handlers, s.handlerIndex) == [handlers[handlerIndex]] + Rest(handlers, handlerIndex);
      out := Call(handlers[handlerIndex]);
    }

    method ComposedNext(closure: Frame) returns (out: Outcome)
      requires Valid() && closure == next
      modifies this, Repr
      ensures Valid() && fresh(Repr - old(Repr))
      ensures Ran(Abs(), out) == old(Onion.ComposedNext(Abs()))
      decreases Weight(Abs()), 3, 0
    {
      hide Run, Perform, Enter, Onion.Next, Onion.ChainNext;
      ghost var s := Abs();
      Advance(closure);
      if closure.index >= |closure.list| {
        Restore(closure);
        out := Next();
      } else {
        assert Rest(closure.list, closure.index - 1) ==
               [closure.list[closure.index]] + Rest(closure.list, closure.index);
        out := Call(closure.list[closure.index]);
      }
    }

    /** index++ */
    method Advance(closure: Frame)
      requires Valid() && closure == next
      modifies closure
      ensures Valid() && frames == old(frames)
      ensures closure.index == old(closure.index) + 1
      ensures Abs() == Advanced(old(Abs()))
      ensures old(Abs()).next.list == closure.list && old(Abs()).next.index == old(closure.index)
    {
      closure.index := closure.index + 1;
    }

    /** c.Next = originalNext */
    method Restore(closure: Frame)
      requires Valid() && closure == next
      modifies this
      ensures Valid() && Repr == old(Repr)
      ensures Abs() == Restored(old(Abs()))
    {
      next := closure.originalNext;
      frames := frames[..|frames| - 1];
    }

    /** fn(c). */
    method Call(h: Handler) returns (out: Outcome)
      requires Valid()
      modifies this, Repr
      ensures Valid() && fresh(Repr - old(Repr))
      ensures Ran(Abs(), out) == old(Enter(h, Abs()))
      decreases Weight(Abs()) + HandlerWeight(h), 2, 0
    {
      match h
      case Leaf(name, plan, steps) => out := CallLeaf(name, plan, steps);
      case Compose(hs) => out := CallCompose(hs);
    }

    method CallLeaf(name: int, plan: seq<View> -> Act, steps: nat) returns (out: Outcome)
      requires Valid()
      modifies this, Repr
      ensures Valid() && fresh(Repr - old(Repr))
      ensures Ran(Abs(), out) == old(Enter(Leaf(name, plan, steps), Abs()))
      decreases Weight(Abs()) + 1, 1, 0
    {
      hide Perform, Run;
      trace := trace + [Entered(name)];
      out := RunBody(plan, steps);
    }

    method CallCompose(hs: seq<Handler>) returns (out: Outcome)
      requires Valid()
      modifies this, Repr
      ensures Valid() && fresh(Repr - old(Repr))
      ensures Ran(Abs(), out) == old(Enter(Compose(hs), Abs()))
      decreases Weight(Abs()) + HandlerWeight(Compose(hs)), 1, 0
    {
      hide Perform, Run, Onion.Next;
      Install(hs);
      assert Rest(hs, -1) == hs;
      out := Next();
    }

    /** What the handler returned by Compose does before its c.Next(). */
    method Install(hs: seq<Handler>)
      requires Valid()
      modifies this
      ensures Valid() && fresh(Repr - old(Repr))
      ensures Abs() == Installed(old(Abs()), hs)
    {
      var closure := new Frame(hs, next);
      next := closure;
      frames, Repr := frames + [closure], Repr + {closure};
      assert frames[..|frames| - 1] == old(frames);
    }

    method Do(act: Act, last: Outcome) returns (out: Outcome)
      requires Valid()
      modifies this, Repr
      ensures Valid() && fresh(Repr - old(Repr))
      ensures Ran(Abs(), out) == old(Perform(act, last, Abs()))
      decreases Weight(Abs()), 5, 0
    {
      hide Run, Onion.Next;
      match act
      case Emit(d) => trace, out := trace + [Did(d)], last;
      case Commit => committed, trace, out := true, trace + [Committed], last;
      case CallNext => out := Next();
      case Return(outcome) => out := outcome;
    }

    /** A plain handler: a loop over its actions. */
    method RunBody(plan: seq<View> -> Act, steps: nat) returns (out: Outcome)
      requires Valid()
      modifies this, Repr
      ensures Valid() && fresh(Repr - old(Repr))
      ensures Ran(Abs(), out) == old(Run(plan, steps, [], Ok, Abs()))
      decreases Weight(Abs()), 6, steps
    {
      hide Perform, Onion.Next, Onion.ChainNext, Onion.ComposedNext, Enter, Weight, Denotes;
      var seen: seq<View>, last, left := [], Ok, steps;
      while left > 0
        invariant Valid() && fresh(Repr - old(Repr))
        invariant Weight(Abs()) <= old(Weight(Abs()))
        invariant Run(plan, left, seen, last, Abs()) == old(Run(plan, steps, [], Ok, Abs()))
        decreases left
      {
        ghost var s := Abs();
        var k: nat := left - 1;
        seen := seen + [View(committed, trace, last)];
        ghost var r := Perform(plan(seen), last, s);
        assert Run(plan, left, seen[..|seen| - 1], last, s) ==
               if plan(seen).Return? then r else Run(plan, k, seen, r.out, r.st);
        last := Do(plan(seen), last);
        if plan(seen).Return? {
          return last;
        }
        left := k;
      }
      return Ok;
    }
  }
}
