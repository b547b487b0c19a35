/** Traces (trace.go): what chainNext records, how Calculate turns it into the time of each middleware, and
    how durations are printed. */
module Tracing {
  import opened Text
  import opened Decimal

  /** The value of a TraceInfo. */
  datatype Info = Info(middleware: bool, duration: int)

  // ---------------------------------------------------------------------------------------------
  // Calculate

  /** The duration of the first middleware entry, 0 if there is none. */
  function First(infos: seq<Info>): int {
    if infos == [] then 0
    else if infos[0].middleware then infos[0].duration
    else First(infos[1..])
  }

  function FirstFrom(infos: seq<Info>, i: nat): int
    requires i <= |infos|
  {
    First(infos[i..])
  }

  /** Every middleware entry gives up the duration of the next one. */
  function Calculated(infos: seq<Info>): (r: seq<Info>)
    ensures |r| == |infos|
  {
    if infos == [] then []
    else
      var rest := infos[1..];
      [if infos[0].middleware then Info(true, infos[0].duration - First(rest)) else infos[0]] + Calculated(rest)
  }

  /** What Calculate leaves in entry k. */
  lemma {:induction false} CalculatedAt(infos: seq<Info>, k: nat)
    requires k < |infos|
    ensures Calculated(infos)[k] ==
            if infos[k].middleware then Info(true, infos[k].duration - FirstFrom(infos, k + 1)) else infos[k]
    decreases k
  {
    if k > 0 {
      var p: nat, rest := k - 1, infos[1..];
      CalculatedAt(rest, p);
      assert rest[p + 1..] == infos[k + 1..];
    }
  }

  lemma {:induction false} FirstFromStep(infos: seq<Info>, i: nat)
    requires i <= |infos|
    ensures FirstFrom(infos, i) ==
            if i == |infos| then 0 else if infos[i].middleware then infos[i].duration else FirstFrom(infos, i + 1)
  {
    if i < |infos| {
      assert infos[i..][1..] == infos[i + 1..];
    }
  }

  class TraceInfo {
    const middleware: bool
    var duration: int

    constructor (middleware: bool, duration: int)
      ensures this.middleware == middleware && this.duration == duration
    {
      this.middleware, this.duration := middleware, duration;
    }
  }

  class Trace {
    var calculateDone: bool
    var infos: seq<TraceInfo>

    constructor ()
      ensures Valid() && !calculateDone && infos == []
    {
      calculateDone, infos := false, [];
    }

    /** No entry is listed twice: every entry is allocated when it is added. */
    ghost predicate Valid()
      reads this
    {
      forall i, j :: 0 <= i < j < |infos| ==> infos[i] != infos[j]
    }

    ghost function Values(): (vs: seq<Info>)
      reads this, infos
      ensures |vs| == |infos|
      ensures forall k :: 0 <= k < |infos| ==> vs[k] == Info(infos[k].middleware, infos[k].duration)
    {
      seq(|infos|, k requires 0 <= k < |infos| reads this, infos => Info(infos[k].middleware, infos[k].duration))
    }

    method Add(info: TraceInfo)
      requires Valid() && info !in infos
      modifies this
      ensures Valid() && infos == old(infos) + [info] && calculateDone == old(calculateDone)
    {
      infos := infos + [info];
    }

    /** Calculate: subtracts in place, through the entry it saw last; only the first call does anything. */
    method Calculate()
      requires Valid()
      modifies this, infos
      ensures Valid() && calculateDone && infos == old(infos)
      ensures Values() == if old(calculateDone) then old(Values()) else Calculated(old(Values()))
    {
      if calculateDone {
        return;
      }
      ghost var before := Values();
      hide FirstFrom, Calculated;
      var cur: TraceInfo? := null;
      ghost var at: int := -1;
      for i := 0 to |infos|
        invariant infos == old(infos) && !calculateDone
        invariant -1 <= at < i && (cur == null <==> at == -1)
        invariant cur != null ==> cur == infos[at] && cur.middleware && cur.duration == before[at].duration
        invariant cur != null ==> FirstFrom(before, at + 1) == FirstFrom(before, i)
        invariant forall k :: 0 <= k < i && k != at ==> infos[k].duration == Calculated(before)[k].duration
        invariant forall k :: i <= k < |infos| ==> infos[k].duration == before[k].duration
      {
        var item := infos[i];
        FirstFromStep(before, i);
        CalculatedAt(before, i);
        if cur != null {
          CalculatedAt(before, at);
        }
        if item.middleware {
          if cur != null {
            cur.duration := cur.duration - item.duration;
          }
          cur := item;
          at := i;
        }
      }
      if cur != null {
        FirstFromStep(before, |infos|);
        CalculatedAt(before, at);
      }
      calculateDone := true;
      forall k | 0 <= k < |infos| ensures Values()[k] == Calculated(before)[k] {
        CalculatedAt(before, k);
      }
    }
  }

  // ---------------------------------------------------------------------------------------------
  // The durations of the middleware entries

  function Durations(infos: seq<Info>): seq<int> {
    if infos == [] then []
    else if infos[0].middleware then [infos[0].duration] + Durations(infos[1..])
    else Durations(infos[1..])
  }

  /** Each duration minus the next one. */
  function Differences(ds: seq<int>): (r: seq<int>)
    ensures |r| == |ds|
  {
    if ds == [] then [] else [ds[0] - (if |ds| > 1 then ds[1] else 0)] + Differences(ds[1..])
  }

  function Sum(ds: seq<int>): int {
    if ds == [] then 0 else ds[0] + Sum(ds[1..])
  }

  lemma {:induction false} DurationsConcat(a: seq<Info>, b: seq<Info>)
    ensures Durations(a + b) == Durations(a) + Durations(b)
    decreases |a|
  {
    if a == [] {
      assert a + b == b;
    } else {
      assert (a + b)[1..] == a[1..] + b;
      DurationsConcat(a[1..], b);
    }
  }

  lemma {:induction false} FirstDuration(infos: seq<Info>)
    ensures First(infos) == if Durations(infos) == [] then 0 else Durations(infos)[0]
    decreases |infos|
  {
    if infos != [] && !infos[0].middleware {
      FirstDuration(infos[1..]);
    }
  }

  lemma {:induction false} DifferencesCons(d: int, rest: seq<int>)
    ensures Differences([d] + rest) == [if rest == [] then d else d - rest[0]] + Differences(rest)
  {
    assert ([d] + rest)[1..] == rest;
  }

  /** On the middleware entries, Calculate takes differences of neighbours. */
  lemma {:induction false} CalculatedIsDifferences(infos: seq<Info>)
    ensures Durations(Calculated(infos)) == Differences(Durations(infos))
    decreases |infos|
  {
    if infos != [] {
      var rest, after := infos[1..], Calculated(infos);
      CalculatedIsDifferences(rest);
      assert after[1..] == Calculated(rest);
      if infos[0].middleware {
        FirstDuration(rest);
        assert Durations(after) == [infos[0].duration - First(rest)] + Durations(Calculated(rest));
        assert Durations(infos) == [infos[0].duration] + Durations(rest);
        hide Durations, Calculated, First, Differences;
        DifferencesCons(infos[0].duration, Durations(rest));
      }
    }
  }

  /** Whatever was recorded, the calculated durations add up to that of the first middleware entry. */
  lemma {:induction false} DifferencesSum(ds: seq<int>)
    ensures Sum(Differences(ds)) == if ds == [] then 0 else ds[0]
    decreases |ds|
  {
    if |ds| > 1 {
      DifferencesSum(ds[1..]);
      assert Differences(ds)[1..] == Differences(ds[1..]);
    }
  }

  // ---------------------------------------------------------------------------------------------
  // What chainNext records

  /** A stretch of a handler: plain work, or a sub-trace started and finished in it. */
  datatype Work = Plain(ticks: nat) | Sub(ticks: nat)

  /** The times of a handler: it calls Next between each two of its segments, so any number of times.  `hidden` is
      the name "-".  Of the handlers of module Onion, which decide what to do by what they see, this keeps the
      calls of Next and the time spent; the cursor they share is the same. */
  datatype Handler = Handler(hidden: bool, segments: seq<seq<Work>>)

  function WorkTime(work: seq<Work>): nat {
    if work == [] then 0 else work[0].ticks + WorkTime(work[1..])
  }

  function WorkInfos(work: seq<Work>): seq<Info> {
    if work == [] then []
    else (if work[0].Sub? then [Info(false, work[0].ticks)] else []) + WorkInfos(work[1..])
  }

  /** A traced handler that was entered: how long it took, and the traced handlers entered directly in it, those
      inside hidden ones included. */
  datatype Call = Call(total: nat, inner: seq<Call>)

  /** What one call of Next leaves: the entries in the order in which they are added, with their final durations,
      the traced calls, the time at which it returns, and the handlers that are left in line. */
  datatype Recorded = Recorded(infos: seq<Info>, calls: seq<Call>, end: nat, left: seq<Handler>)

  /** chainNext at time `now`, with these handlers left in line. */
  function Next(left: seq<Handler>, now: nat): (r: Recorded)
    ensures r.end >= now && |r.left| <= |left|
    decreases |left|, 0
  {
    if left == [] then Recorded([], [], now, [])
    else Entered(left[0], Body(left[0].segments, left[1..], now), now)
  }

  /** One step of chainNext, around what the body of the handler recorded. */
  function Entered(h: Handler, b: Recorded, now: nat): (r: Recorded)
    requires b.end >= now
    ensures r.end == b.end && r.left == b.left
  {
    if h.hidden then b else b.(infos := [Info(true, b.end - now)] + b.infos, calls := [Call(b.end - now, b.calls)])
  }

  /** The segments of a handler, with a Next between each two. */
  function Body(segments: seq<seq<Work>>, left: seq<Handler>, now: nat): (r: Recorded)
    ensures r.end >= now && |r.left| <= |left|
    decreases |left|, 1 + |segments|
  {
    if segments == [] then Recorded([], [], now, left)
    else
      var t := now + WorkTime(segments[0]);
      if |segments| == 1 then Recorded(WorkInfos(segments[0]), [], t, left)
      else
        var n := Next(left, t);
        var rest := Body(segments[1..], n.left, n.end);
        Recorded(WorkInfos(segments[0]) + n.infos + rest.infos, n.calls + rest.calls, rest.end, rest.left)
  }

  /** The durations of the calls, each before those in it. */
  function Totals(calls: seq<Call>): seq<int>
    decreases calls
  {
    if calls == [] then [] else [calls[0].total as int] + Totals(calls[0].inner) + Totals(calls[1..])
  }

  function Time(calls: seq<Call>): nat
    decreases |calls|
  {
    if calls == [] then 0 else calls[0].total + Time(calls[1..])
  }

  /** No call is shorter than those in it together. */
  predicate Fits(calls: seq<Call>)
    decreases calls
  {
    calls == [] || (Time(calls[0].inner) <= calls[0].total && Fits(calls[0].inner) && Fits(calls[1..]))
  }

  lemma {:induction false} SubsAreNoMiddleware(work: seq<Work>)
    ensures Durations(WorkInfos(work)) == []
    decreases |work|
  {
    if work != [] {
      SubsAreNoMiddleware(work[1..]);
      if work[0].Sub? {
        assert WorkInfos(work)[1..] == WorkInfos(work[1..]);
      } else {
        assert WorkInfos(work) == WorkInfos(work[1..]);
      }
    }
  }

  lemma {:induction false} Associative<T>(a: seq<T>, b: seq<T>, c: seq<T>)
    ensures a + (b + c) == a + b + c
  {
  }

  lemma {:induction false} CallsConcat(a: seq<Call>, b: seq<Call>)
    ensures Totals(a + b) == Totals(a) + Totals(b) && Time(a + b) == Time(a) + Time(b)
    ensures Fits(a) && Fits(b) ==> Fits(a + b)
    decreases |a|
  {
    if a == [] {
      assert a + b == b;
    } else {
      var rest := a[1..];
      assert (a + b)[1..] == rest + b;
      CallsConcat(rest, b);
      var head := [a[0].total as int] + Totals(a[0].inner);
      assert Totals(a) == head + Totals(rest) && Totals(a + b) == head + Totals(rest + b);
      hide Totals, Time, Fits;
      Associative(head, Totals(rest), Totals(b));
    }
  }

  /** The entries are those of the calls, which fit into the time that passed. */
  ghost predicate Records(r: Recorded, now: nat) {
    Durations(r.infos) == Totals(r.calls) && Fits(r.calls) && Time(r.calls) <= r.end - now
  }

  lemma {:induction false} NextRecords(left: seq<Handler>, now: nat)
    ensures Records(Next(left, now), now)
    decreases |left|, 0
  {
    if left != [] {
      var b := Body(left[0].segments, left[1..], now);
      BodyRecords(left[0].segments, left[1..], now);
      OneCall(left[0], b, now);
    }
  }

  lemma {:induction false} OneCall(h: Handler, b: Recorded, now: nat)
    requires b.end >= now && Records(b, now)
    ensures Records(Entered(h, b, now), now)
  {
    var c := Call(b.end - now, b.calls);
    var infos := [Info(true, b.end - now)] + b.infos;
    assert infos[1..] == b.infos;
    assert [c][1..] == [] && Totals([]) == [] && Time([]) == 0 && Fits([]);
    assert Totals([c]) == [c.total as int] + Totals(b.calls) + [];
  }

  lemma {:induction false} BodyRecords(segments: seq<seq<Work>>, left: seq<Handler>, now: nat)
    ensures Records(Body(segments, left, now), now)
    decreases |left|, 1 + |segments|
  {
    if segments != [] {
      SubsAreNoMiddleware(segments[0]);
      if |segments| > 1 {
        var t := now + WorkTime(segments[0]);
        var n := Next(left, t);
        NextRecords(left, t);
        BodyRecords(segments[1..], n.left, n.end);
        var rest := Body(segments[1..], n.left, n.end);
        assert Body(segments, left, now)
            == Recorded(WorkInfos(segments[0]) + n.infos + rest.infos, n.calls + rest.calls, rest.end, rest.left);
        hide Next, Body, WorkInfos, WorkTime, Durations, Totals, Time, Fits, Records;
        Together(WorkInfos(segments[0]), n, rest, now, t);
      }
    }
  }

  lemma {:induction false} Together(own: seq<Info>, n: Recorded, rest: Recorded, now: nat, t: nat)
    requires Durations(own) == [] && now <= t <= n.end <= rest.end && Records(n, t) && Records(rest, n.end)
    ensures Records(Recorded(own + n.infos + rest.infos, n.calls + rest.calls, rest.end, rest.left), now)
  {
    hide Durations, Totals, Time, Fits;
    DurationsConcat(own + n.infos, rest.infos);
    DurationsConcat(own, n.infos);
    CallsConcat(n.calls, rest.calls);
  }

  // ---------------------------------------------------------------------------------------------
  // Handlers that call Next at most once

  predicate AtMostOnce(handlers: seq<Handler>) {
    forall h <- handlers :: |h.segments| <= 2
  }

  function Own(h: Handler): nat {
    if h.segments == [] then 0
    else WorkTime(h.segments[0]) + if |h.segments| > 1 then WorkTime(h.segments[1]) else 0
  }

  /** The handlers that are reached after the first one. */
  function Rest(handlers: seq<Handler>): (rest: seq<Handler>)
    requires handlers != []
    ensures |rest| < |handlers|
  {
    if |handlers[0].segments| > 1 then handlers[1..] else []
  }

  /** The time of the hidden handlers that are reached before the first traced one. */
  function Lead(handlers: seq<Handler>): nat
    decreases |handlers|
  {
    if handlers == [] || !handlers[0].hidden then 0 else Own(handlers[0]) + Lead(Rest(handlers))
  }

  /** What each traced handler that is reached should be charged: its own time, and that of the hidden
      handlers between it and the next traced one. */
  function Charged(handlers: seq<Handler>): (ds: seq<int>)
    ensures NonNegative(ds)
    decreases |handlers|
  {
    if handlers == [] then []
    else
      var rest := Rest(handlers);
      if handlers[0].hidden then Charged(rest) else [Own(handlers[0]) + Lead(rest)] + Charged(rest)
  }

  /** After Calculate the entries of r carry `charged`, and r took those plus `lead`. */
  ghost predicate Charges(r: Recorded, now: nat, charged: seq<int>, lead: int) {
    var ds := Totals(r.calls);
    && Differences(ds) == charged
    && r.end - now == lead + if ds == [] then 0 else ds[0]
  }

  /** A body with at most one Next, around what that recorded. */
  lemma {:induction false} BodyOfTwo(h: Handler, left: seq<Handler>, now: nat)
    requires |h.segments| <= 2
    ensures var b := Body(h.segments, left, now);
            if |h.segments| < 2 then b.calls == [] && b.end == now + Own(h)
            else
              var t := now + WorkTime(h.segments[0]);
              b.calls == Next(left, t).calls && b.end - now == Own(h) + Next(left, t).end - t
  {
    if |h.segments| == 2 {
      var n := Next(left, now + WorkTime(h.segments[0]));
      assert h.segments[1..] == [h.segments[1]];
      assert n.calls + [] == n.calls;
      hide Next, WorkTime, WorkInfos;
    }
  }

  lemma {:induction false} ChargesAround(h: Handler, b: Recorded, now: nat, inner: Recorded, t: nat, charged: seq<int>,
                                         lead: int)
    requires b.end >= now && Charges(inner, t, charged, lead)
    requires b.calls == inner.calls && b.end - now == Own(h) + inner.end - t
    ensures Charges(Entered(h, b, now), now, if h.hidden then charged else [Own(h) + lead] + charged,
                    if h.hidden then Own(h) + lead else 0)
  {
    var c, ds := Call(b.end - now, b.calls), Totals(inner.calls);
    assert [c][1..] == [] && Totals([]) == [];
    assert Totals([c]) == [c.total as int] + ds + [] == [c.total as int] + ds;
    hide Totals, Own, Differences;
    DifferencesCons(c.total, ds);
  }

  lemma {:induction false} ChargedStep(handlers: seq<Handler>)
    requires handlers != []
    ensures var h, rest := handlers[0], Rest(handlers);
            && Charged(handlers) == (if h.hidden then Charged(rest) else [Own(h) + Lead(rest)] + Charged(rest))
            && Lead(handlers) == (if h.hidden then Own(h) + Lead(rest) else 0)
  {
  }

  lemma {:induction false} NextCharges(handlers: seq<Handler>, now: nat)
    requires AtMostOnce(handlers)
    ensures Charges(Next(handlers, now), now, Charged(handlers), Lead(handlers))
    decreases |handlers|
  {
    if handlers == [] {
      assert Totals([]) == [] && Differences([]) == [];
    } else {
      hide *;
      var h, rest := handlers[0], Rest(handlers);
      var b, t := Body(h.segments, handlers[1..], now), now + if |h.segments| > 1 then WorkTime(h.segments[0]) else 0;
      RestAtMostOnce(handlers);
      ChargedStep(handlers);
      BodyAround(handlers, now);
      NextCharges(rest, t);
      ChargesAround(h, b, now, Next(rest, t), t, Charged(rest), Lead(rest));
    }
  }

  lemma {:induction false} RestAtMostOnce(handlers: seq<Handler>)
    requires handlers != [] && AtMostOnce(handlers)
    ensures AtMostOnce(Rest(handlers)) && |handlers[0].segments| <= 2
  {
    assert handlers[0] in handlers && forall x <- Rest(handlers) :: x in handlers;
  }

  lemma {:induction false} BodyAround(handlers: seq<Handler>, now: nat)
    requires handlers != [] && |handlers[0].segments| <= 2
    ensures var h, rest := handlers[0], Rest(handlers);
            var b := Body(h.segments, handlers[1..], now);
            var t := now + if |h.segments| > 1 then WorkTime(h.segments[0]) else 0;
            && Next(handlers, now) == Entered(h, b, now)
            && b.end >= now && b.calls == Next(rest, t).calls && b.end - now == Own(h) + Next(rest, t).end - t
  {
    BodyOfTwo(handlers[0], handlers[1..], now);
    assert Next(handlers, now) == Entered(handlers[0], Body(handlers[0].segments, handlers[1..], now), now);
    assert Next([], now) == Recorded([], [], now, []);
    hide Body, Next, WorkTime, Own;
  }

  /** Trace attribution.  For handlers that call Next at most once, Calculate charges every traced handler
      exactly its own time plus that of the hidden handlers it leads to, leaves the other entries alone, and
      the charges add up to the time of the outermost traced handler. */
  lemma {:induction false} CalculateChargesEachHandler(handlers: seq<Handler>, now: nat)
    requires AtMostOnce(handlers)
    ensures var infos := Next(handlers, now).infos;
            && Durations(Calculated(infos)) == Charged(handlers)
            && Sum(Durations(Calculated(infos))) == (if Durations(infos) == [] then 0 else Durations(infos)[0])
            && NonNegative(Durations(Calculated(infos)))
  {
    var infos := Next(handlers, now).infos;
    CalculatedIsDifferences(infos);
    NextRecords(handlers, now);
    NextCharges(handlers, now);
    DifferencesSum(Durations(infos));
    hide Next, Durations, Calculated, Differences, Sum, Totals, NonNegative;
  }

  // ---------------------------------------------------------------------------------------------
  // Handlers that call Next any number of times

  predicate NonNegative(ds: seq<int>) {
    forall k :: 0 <= k < |ds| ==> ds[k] >= 0
  }

  predicate Descending(ds: seq<int>) {
    forall k, j :: 0 <= k < |ds| && j == k + 1 && j < |ds| ==> ds[k] >= ds[j]
  }

  lemma {:induction false} DifferencesAt(ds: seq<int>, k: nat)
    requires k < |ds|
    ensures Differences(ds)[k] == ds[k] - if k + 1 < |ds| then ds[k + 1] else 0
    decreases k
  {
    if k > 0 {
      var p: nat, rest := k - 1, ds[1..];
      DifferencesAt(rest, p);
      assert rest[p] == ds[k];
      assert k + 1 < |ds| ==> rest[k] == ds[k + 1];
    }
  }

  lemma {:induction false} DifferencesNonNegativeIff(ds: seq<int>)
    requires NonNegative(ds)
    ensures NonNegative(Differences(ds)) <==> Descending(ds)
  {
    forall k | 0 <= k < |ds| ensures Differences(ds)[k] == ds[k] - if k + 1 < |ds| then ds[k + 1] else 0 {
      DifferencesAt(ds, k);
    }
    if Descending(ds) {
      forall k | 0 <= k < |ds| ensures Differences(ds)[k] >= 0 {
        var j := k + 1;
        DifferencesAt(ds, k);
        assert ds[k] >= 0;
        assert j < |ds| ==> ds[k] >= ds[j];
      }
    } else {
      var k, j :| 0 <= k < |ds| && j == k + 1 && j < |ds| && ds[k] < ds[j];
      assert Differences(ds)[k] < 0;
    }
  }

  lemma {:induction false} DescendingConcat(a: seq<int>, b: seq<int>)
    ensures Descending(a + b) <==>
            Descending(a) && Descending(b) && (a != [] && b != [] ==> a[|a| - 1] >= b[0])
  {
    var s := a + b;
    if Descending(s) {
      assert forall k, j :: 0 <= k < |a| && j == k + 1 && j < |a| ==> s[k] == a[k] && s[j] == a[j];
      forall k, j | 0 <= k < |b| && j == k + 1 && j < |b| ensures b[k] >= b[j] {
        assert s[|a| + k] == b[k] && s[|a| + j] == b[j];
      }
      if a != [] && b != [] {
        var k, j := |a| - 1, |a|;
        assert s[k] == a[k] && s[j] == b[0] && s[k] >= s[j];
      }
    }
  }

  /** How long the traced handler took that was entered last in this call: itself, if it led to none. */
  function Last(c: Call): nat
    decreases c
  {
    if c.inner == [] then c.total else Last(c.inner[|c.inner| - 1])
  }

  /** Wherever two traced calls follow each other inside the same one, because a handler around them called Next
      again, the second takes no longer than the traced handler that was entered last before it. */
  predicate Orderly(calls: seq<Call>)
    decreases calls
  {
    || calls == []
    || (&& Orderly(calls[0].inner) && (|calls| > 1 ==> Last(calls[0]) >= calls[1].total) && Orderly(calls[1..]))
  }

  lemma {:induction false} TotalsEnds(calls: seq<Call>)
    requires calls != []
    ensures Totals(calls) != [] && Totals(calls)[0] == calls[0].total
    ensures Totals(calls)[|Totals(calls)| - 1] == Last(calls[|calls| - 1])
    decreases calls
  {
    var head, tail := [calls[0].total as int] + Totals(calls[0].inner), Totals(calls[1..]);
    assert Totals(calls) == head + tail;
    if |calls| > 1 {
      TotalsEnds(calls[1..]);
    } else {
      assert calls[1..] == [] && tail == [];
      if calls[0].inner != [] {
        TotalsEnds(calls[0].inner);
      }
    }
  }

  lemma {:induction false} TotalsAreNonNegative(calls: seq<Call>)
    ensures NonNegative(Totals(calls))
    decreases calls
  {
    if calls != [] {
      TotalsAreNonNegative(calls[0].inner);
      TotalsAreNonNegative(calls[1..]);
    }
  }

  lemma {:induction false} DescendingIffOrderly(calls: seq<Call>)
    requires Fits(calls)
    ensures Descending(Totals(calls)) <==> Orderly(calls)
    decreases calls
  {
    if calls != [] {
      var c, rest := calls[0], calls[1..];
      DescendingIffOrderly(c.inner);
      DescendingIffOrderly(rest);
      var inner, tail := Totals(c.inner), Totals(rest);
      var head := [c.total as int] + inner;
      assert Totals(calls) == head + tail;
      if c.inner != [] {
        TotalsEnds(c.inner);
        assert c.inner[0].total <= Time(c.inner);
      } else {
        assert inner == [];
      }
      assert head[|head| - 1] == Last(c);
      if rest != [] {
        TotalsEnds(rest);
      } else {
        assert tail == [];
      }
      hide Totals, Last, Time, Fits;
      DescendingConcat([c.total as int], inner);
      DescendingConcat(head, tail);
      assert Descending([c.total as int]);
      hide Descending;
    }
  }

  /** In general, some handler is charged a negative time exactly if the calls are not orderly: a handler has called
      Next again, and what that entered took longer than the traced handler entered last before it. */
  lemma {:induction false} NonNegativeChargesIff(handlers: seq<Handler>, now: nat)
    ensures var r := Next(handlers, now);
            NonNegative(Durations(Calculated(r.infos))) <==> Orderly(r.calls)
  {
    var r := Next(handlers, now);
    CalculatedIsDifferences(r.infos);
    NextRecords(handlers, now);
    TotalsAreNonNegative(r.calls);
    DifferencesNonNegativeIff(Totals(r.calls));
    DescendingIffOrderly(r.calls);
  }

  /** A handler that calls Next twice, with a handler of a ticks and one of b ticks behind it. */
  function Twice(a: nat, b: nat): seq<Handler> {
    [Handler(false, [[], [], []])] + ([Handler(false, [[Plain(a)]])] + [Handler(false, [[Plain(b)]])])
  }

  /** The one of a ticks is charged the difference, which is negative if the second Next took longer. */
  lemma {:induction false} SecondNextIsCharged(a: nat, b: nat, now: nat)
    ensures Durations(Calculated(Next(Twice(a, b), now).infos)) == [b as int, a - b, b]
  {
    var two := [Handler(false, [[Plain(a)]])] + [Handler(false, [[Plain(b)]])];
    assert Twice(a, b)[1..] == two;
    TwoNexts(a, b, now);
    var body := Body([[], [], []], two, now);
    assert Next(Twice(a, b), now).infos == [Info(true, body.end - now)] + body.infos;
    assert [Info(true, a + b)] + body.infos == [Info(true, a + b), Info(true, a), Info(true, b)];
    hide Next, Body;
    ThreeEntries(a + b, a, b);
  }

  lemma {:induction false} TwoNexts(a: nat, b: nat, now: nat)
    ensures var body := Body([[], [], []], [Handler(false, [[Plain(a)]])] + [Handler(false, [[Plain(b)]])], now);
            body.infos == [Info(true, a), Info(true, b)] && body.end == now + a + b
  {
    var first, second := Handler(false, [[Plain(a)]]), Handler(false, [[Plain(b)]]);
    var two, one: seq<Handler> := [first] + [second], [second];
    assert two[1..] == one && one[1..] == [];
    assert WorkTime([]) == 0 && WorkInfos([]) == [];
    OneSegment(a, one, now);
    OneSegment(b, [], now + a);
    var n1, n2 := Next(two, now), Next(one, now + a);
    assert n1 == Recorded([Info(true, a)], [Call(a, [])], now + a, one);
    assert n2 == Recorded([Info(true, b)], [Call(b, [])], now + a + b, []);
    hide WorkTime, WorkInfos, Next;
    var s3: seq<seq<Work>> := [[], [], []];
    var s2: seq<seq<Work>> := [[], []];
    var s1: seq<seq<Work>> := [[]];
    assert s3[1..] == s2 && s2[1..] == s1;
    var b1 := Body(s1, [], now + a + b);
    assert b1 == Recorded([], [], now + a + b, []);
    var b2 := Body(s2, one, now + a);
    assert b2.infos == [] + n2.infos + [] && b2.end == now + a + b;
    assert Body(s3, two, now).infos == [] + n1.infos + b2.infos;
  }

  lemma {:induction false} OneSegment(a: nat, left: seq<Handler>, now: nat)
    ensures Body([[Plain(a)]], left, now) == Recorded([], [], now + a, left)
  {
    var work := [Plain(a)];
    assert work[1..] == [] && WorkTime([]) == 0 && WorkInfos([]) == [];
    assert WorkTime(work) == a && WorkInfos(work) == [] + [];
  }

  lemma {:induction false} ThreeEntries(x: int, y: int, z: int)
    ensures Durations(Calculated([Info(true, x), Info(true, y), Info(true, z)])) == [x - y, y - z, z]
  {
    var infos := [Info(true, x), Info(true, y), Info(true, z)];
    var i2, i1 := [Info(true, y), Info(true, z)], [Info(true, z)];
    assert infos[1..] == i2 && i2[1..] == i1 && i1[1..] == [];
    assert Durations(i1) == [z] + Durations([]) && Durations(i2) == [y] + Durations(i1);
    assert Durations(infos) == [x] + Durations(i2);
    var ds, d2, d1 := [x, y, z], [y, z], [z];
    assert Durations(infos) == ds && ds[1..] == d2 && d2[1..] == d1 && d1[1..] == [];
    CalculatedIsDifferences(infos);
    assert Differences(d1) == [z - 0] + Differences([]);
    assert Differences(d2) == [y - z] + Differences(d1);
    assert Differences(ds) == [x - y] + Differences(d2);
  }

  // ---------------------------------------------------------------------------------------------
  // Printing

  const MICROSECOND := 1_000
  const MILLISECOND := 1_000_000
  const POINT: byte := 46

  /** writeMs: what is appended to the builder. */
  method WriteMs(s: Bytes, ns: int) returns (r: Bytes)
    ensures r == s + Ms(ns)
  {
    hide Digits;
    r := s;
    if ns < MICROSECOND {
      r := r + [48];
      return;
    }
    var ms := ns / MILLISECOND;
    r := r + Digits(ms);
    var offset := (ns % MILLISECOND) / MICROSECOND;
    var unit := 10;
    if offset < unit {
      return;
    }
    r := r + [POINT];
    if offset < 100 {
      r := r + [48];
      r := r + Digits(offset / unit);
      return;
    }
    r := r + Digits(offset / unit);
  }

  function Ms(ns: int): Bytes {
    if ns < MICROSECOND then [48]
    else
      var offset := (ns % MILLISECOND) / MICROSECOND;
      Digits(ns / MILLISECOND) +
      if offset < 10 then []
      else if offset < 100 then [POINT, 48] + Digits(offset / 10)
      else [POINT] + Digits(offset / 10)
  }

  /** Reads a decimal with no or two digits after the point, in hundredths. */
  function Hundredths(s: Bytes): Option<nat> {
    var i := IndexByte(s, POINT);
    if i == 0 || !AllDigits(s[..i]) then None
    else if i == |s| then Some(100 * DigitsValue(s))
    else if |s| == i + 3 && AllDigits(s[i + 1..]) then Some(100 * DigitsValue(s[..i]) + DigitsValue(s[i + 1..]))
    else None
  }

  lemma {:induction false} TwoDigits(n: nat)
    requires n < 100
    ensures var s := if n < 10 then [48] + Digits(n) else Digits(n);
            |s| == 2 && AllDigits(s) && DigitsValue(s) == n
  {
    DigitsRoundTrip(n);
    if n < 10 {
      var s := [48] + Digits(n);
      assert s[..1] == [48] && DigitsValue([48]) == 0 by { DigitsRoundTrip(0); }
    } else {
      assert Digits(n / 10) == [48 + n / 10];
    }
  }

  /** What is printed is the number of whole hundredths of a millisecond: it never overstates the duration
      and is off by less than 10 microseconds. */
  lemma {:induction false} MsIsExact(ns: nat)
    ensures Hundredths(Ms(ns)) == Some(ns / 10_000)
    ensures 0 <= ns - 10_000 * (ns / 10_000) < 10_000
  {
    if ns < MICROSECOND {
      DigitsRoundTrip(0);
      assert Ms(ns) == Digits(0);
      HundredthsOfInteger(0);
    } else {
      var ms, offset := ns / MILLISECOND, (ns % MILLISECOND) / MICROSECOND;
      Floors(ns);
      DigitsRoundTrip(ms);
      if offset < 10 {
        assert Ms(ns) == Digits(ms) + [] == Digits(ms);
        HundredthsOfInteger(ms);
      } else {
        TwoDigits(offset / 10);
        HundredthsOfDecimal(ms, offset / 10);
        var frac := if offset / 10 < 10 then [48] + Digits(offset / 10) else Digits(offset / 10);
        assert Ms(ns) == Digits(ms) + [POINT] + frac;
      }
    }
  }

  lemma {:induction false} Floors(ns: nat)
    ensures ns / 10_000 == 100 * (ns / MILLISECOND) + (ns % MILLISECOND) / MICROSECOND / 10
  {
  }

  lemma {:induction false} NoPoint(n: nat)
    ensures POINT !in Digits(n)
  {
  }

  lemma {:induction false} HundredthsOfInteger(n: nat)
    ensures Hundredths(Digits(n)) == Some(100 * n)
  {
    NoPoint(n);
    IndexByteAbsent(Digits(n), POINT);
    DigitsRoundTrip(n);
    assert Digits(n)[..|Digits(n)|] == Digits(n);
  }

  lemma {:induction false} HundredthsOfDecimal(n: nat, h: nat)
    requires h < 100
    ensures var frac := if h < 10 then [48] + Digits(h) else Digits(h);
            Hundredths(Digits(n) + [POINT] + frac) == Some(100 * n + h)
  {
    var frac := if h < 10 then [48] + Digits(h) else Digits(h);
    TwoDigits(h);
    NoPoint(n);
    DigitsRoundTrip(n);
    hide Digits, DigitsValue;
    HundredthsOf(Digits(n), frac);
  }

  lemma {:induction false} HundredthsOf(whole: Bytes, frac: Bytes)
    requires whole != [] && AllDigits(whole) && POINT !in whole && |frac| == 2 && AllDigits(frac)
    ensures Hundredths(whole + [POINT] + frac) == Some(100 * DigitsValue(whole) + DigitsValue(frac))
  {
    IndexByteAt(whole, POINT, frac);
    hide IndexByte, DigitsValue;
    var s := whole + [POINT] + frac;
    assert s[..|whole|] == whole && s[|whole| + 1..] == frac;
  }
}
