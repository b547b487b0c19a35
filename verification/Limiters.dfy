/** The concurrency limiters (middleware/concurrent_limiter.go, middleware/router_concurrent_limiter.go):
    uint32 counters that any number of requests increment and decrement, each deciding later with the value it
    saw. */
module Limiters {
  import opened Text

  const MODULUS := 0x1_0000_0000

  type uint32 = n: nat | n < MODULUS

  /** atomic.Uint32.Add(1), and Add(^uint32(0)). */
  function Inc(n: uint32): uint32 { (n + 1) % MODULUS }
  function Dec(n: uint32): uint32 { (n + (MODULUS - 1)) % MODULUS }

  /** The global limiter has one counter, under the empty key; the local router limiter has one for every route
      it was given. */
  datatype Limiter = Global(max: uint32) | PerRoute(limits: map<Bytes, uint32>) {

    predicate Counts(key: Bytes) {
      match this
      case Global(_) => key == []
      case PerRoute(limits) => key in limits
    }

    /** Whether a request that saw this value after its increment goes on to Next. */
    predicate Admits(key: Bytes, value: uint32)
      requires Counts(key)
    {
      match this
      case Global(max) => !(value >= max)
      case PerRoute(limits) => !(limits[key] != 0 && value > limits[key])
    }

    /** The most requests that may be past the limiter at once; None for "no limit". */
    function Cap(key: Bytes): Option<nat>
      requires Counts(key)
    {
      match this
      case Global(max) => Some(if max == 0 then 0 else max - 1)
      case PerRoute(limits) => if limits[key] == 0 then None else Some(limits[key])
    }
  }

  /** Where a request is: it has incremented, it has been admitted and runs Next, it has been rejected; its
      deferred decrement comes last.  Uncounted requests pass without a counter. */
  datatype Phase =
    | Counted(key: Bytes, value: uint32)
    | Admitted(key: Bytes)
    | Rejected(key: Bytes)
    | Uncounted(key: Bytes)
    | Done

  datatype State = State(counters: map<Bytes, uint32>, requests: map<nat, Phase>)

  // ---------------------------------------------------------------------------------------------
  // The counters as objects

  class LocalRouterConcurrencyLimiter {
    const limits: map<Bytes, uint32>
    var current: map<Bytes, uint32>

    ghost predicate Valid()
      reads this
    {
      current.Keys == limits.Keys
    }

    constructor (limits: map<Bytes, uint32>)
      ensures Valid() && this.limits == limits && forall k <- limits :: current[k] == 0
    {
      this.limits := limits;
      current := map k <- limits :: 0;
    }

    method IncConcurrency(key: Bytes) returns (value: uint32, max: uint32)
      requires Valid()
      modifies this
      ensures Valid()
      ensures key !in limits ==> value == max == 0 && current == old(current)
      ensures key in limits ==> max == limits[key] && value == Inc(old(current)[key])
                                && current == old(current)[key := value]
    {
      if key !in limits {
        return 0, 0;
      }
      current := current[key := Inc(current[key])];
      value, max := current[key], limits[key];
    }

    method DecConcurrency(key: Bytes)
      requires Valid()
      modifies this
      ensures Valid()
      ensures current == if key in limits then old(current)[key := Dec(old(current)[key])] else old(current)
    {
      if key !in limits {
        return;
      }
      current := current[key := Dec(current[key])];
    }
  }

  // ---------------------------------------------------------------------------------------------
  // Steps

  /** IncConcurrency, or count.Add(1). */
  ghost predicate Arrive(l: Limiter, s: State, s': State, id: nat, key: Bytes) {
    && id !in s.requests
    && if l.Counts(key) && key in s.counters then
         var value := Inc(s.counters[key]);
         s' == State(s.counters[key := value], s.requests[id := Counted(key, value)])
       else s' == s.(requests := s.requests[id := Uncounted(key)])
  }

  /** The comparison with the limit, on the value seen at arrival. */
  ghost predicate Decide(l: Limiter, s: State, s': State, id: nat) {
    && id in s.requests && s.requests[id].Counted? && l.Counts(s.requests[id].key)
    && var p := s.requests[id];
       s' == s.(requests := s.requests[id := if l.Admits(p.key, p.value) then Admitted(p.key) else Rejected(p.key)])
  }

  /** The deferred decrement. */
  ghost predicate Leave(s: State, s': State, id: nat) {
    && id in s.requests
    && match s.requests[id]
       case Admitted(key) =>
         key in s.counters && s' == State(s.counters[key := Dec(s.counters[key])], s.requests[id := Done])
       case Rejected(key) =>
         key in s.counters && s' == State(s.counters[key := Dec(s.counters[key])], s.requests[id := Done])
       case Uncounted(_) => s' == s.(requests := s.requests[id := Done])
       case _ => false
  }

  ghost predicate Step(l: Limiter, s: State, s': State) {
    || (exists id, key :: Arrive(l, s, s', id, key))
    || (exists id :: Decide(l, s, s', id))
    || (exists id :: Leave(s, s', id))
  }

  ghost predicate Init(l: Limiter, s: State) {
    && s.requests == map[]
    && (forall k :: k in s.counters <==> l.Counts(k))
    && (forall k <- s.counters :: s.counters[k] == 0)
  }

  ghost predicate IsRun(l: Limiter, run: seq<State>) {
    && run != [] && Init(l, run[0])
    && forall i, j :: 0 <= i < |run| && j == i + 1 && j < |run| ==> Step(l, run[i], run[j])
  }

  // ---------------------------------------------------------------------------------------------
  // The invariant

  predicate HasKey(p: Phase, key: Bytes) {
    (p.Counted? || p.Admitted? || p.Rejected?) && p.key == key
  }

  /** The requests of a key between increment and decrement. */
  ghost function InFlight(s: State, key: Bytes): set<nat> {
    set id <- s.requests | HasKey(s.requests[id], key)
  }

  /** Those that are past the limiter. */
  ghost function Running(s: State, key: Bytes): set<nat> {
    set id <- s.requests | s.requests[id] == Admitted(key)
  }

  predicate MayRun(l: Limiter, p: Phase, key: Bytes)
    requires l.Counts(key)
  {
    p == Admitted(key) || (p.Counted? && p.key == key && l.Admits(key, p.value))
  }

  /** Those that are or will be: the decision is already fixed by the value seen. */
  ghost function Bound(l: Limiter, s: State, key: Bytes): set<nat>
    requires l.Counts(key)
  {
    set id <- s.requests | MayRun(l, s.requests[id], key)
  }

  /** Fewer than 2^32 requests of each key are in flight. */
  ghost predicate Few(s: State) {
    forall key <- s.counters :: |InFlight(s, key)| < MODULUS
  }

  ghost predicate CountsInFlight(l: Limiter, s: State) {
    && (forall k :: k in s.counters <==> l.Counts(k))
    && (forall k <- s.counters :: s.counters[k] == |InFlight(s, k)| % MODULUS)
    && (forall id <- s.requests :: s.requests[id].Counted? || s.requests[id].Admitted? || s.requests[id].Rejected?
          ==> s.requests[id].key in s.counters)
  }

  ghost predicate WithinCap(l: Limiter, s: State, key: Bytes)
    requires l.Counts(key)
  {
    l.Cap(key).Some? ==> |Bound(l, s, key)| <= l.Cap(key).value
  }

  ghost predicate Safe(l: Limiter, s: State) {
    forall key <- s.counters :: l.Counts(key) && WithinCap(l, s, key)
  }

  lemma CardOfSubset<T>(a: set<T>, b: set<T>)
    requires a <= b
    ensures |a| <= |b|
  {
    if a != {} {
      var x :| x in a;
      CardOfSubset(a - {x}, b - {x});
    }
  }

  /** One request changes its phase: what that does to the requests in flight. */
  lemma FlightAfter(s: State, s': State, id: nat, p: Phase, key: Bytes)
    requires s'.requests == s.requests[id := p]
    ensures InFlight(s', key) == InFlight(s, key) - {id} + if HasKey(p, key) then {id} else {}
  {
  }

  lemma BoundAfter(l: Limiter, s: State, s': State, id: nat, p: Phase, key: Bytes)
    requires s'.requests == s.requests[id := p] && l.Counts(key)
    ensures Bound(l, s', key) == Bound(l, s, key) - {id} + if MayRun(l, p, key) then {id} else {}
  {
  }

  lemma WrapAround(x: nat)
    ensures Inc(x % MODULUS) == (x + 1) % MODULUS
    ensures Dec((x + 1) % MODULUS) == x % MODULUS
  {
  }

  /** ... and to their number. */
  lemma FlightCount(s: State, s': State, id: nat, p: Phase, key: Bytes)
    requires s'.requests == s.requests[id := p]
    ensures var was := id in s.requests && HasKey(s.requests[id], key);
            |InFlight(s', key)| == |InFlight(s, key)| + (if HasKey(p, key) then 1 else 0) - (if was then 1 else 0)
  {
    FlightAfter(s, s', id, p, key);
    var before := InFlight(s, key);
    assert id in before <==> id in s.requests && HasKey(s.requests[id], key);
    hide InFlight, HasKey;
    if id in before {
      assert |before - {id}| == |before| - 1;
    } else {
      assert before - {id} == before;
    }
    if HasKey(p, key) {
      assert |(before - {id}) + {id}| == |before - {id}| + 1;
    }
  }

  lemma ArriveCounts(l: Limiter, s: State, s': State, id: nat, key: Bytes)
    requires CountsInFlight(l, s) && Arrive(l, s, s', id, key)
    ensures CountsInFlight(l, s')
  {
    hide Inc, InFlight;
    forall k <- s'.counters ensures s'.counters[k] == |InFlight(s', k)| % MODULUS {
      FlightCount(s, s', id, s'.requests[id], k);
      WrapAround(|InFlight(s, k)|);
    }
  }

  lemma DecideCounts(l: Limiter, s: State, s': State, id: nat)
    requires CountsInFlight(l, s) && Decide(l, s, s', id)
    ensures CountsInFlight(l, s')
  {
    hide InFlight;
    forall k <- s'.counters ensures s'.counters[k] == |InFlight(s', k)| % MODULUS {
      FlightCount(s, s', id, s'.requests[id], k);
    }
  }

  lemma LeaveCounts(l: Limiter, s: State, s': State, id: nat)
    requires CountsInFlight(l, s) && Leave(s, s', id)
    ensures CountsInFlight(l, s')
  {
    hide Dec, InFlight;
    forall k <- s'.counters ensures s'.counters[k] == |InFlight(s', k)| % MODULUS {
      FlightCount(s, s', id, Done, k);
      WrapAround(|InFlight(s', k)|);
    }
  }

  lemma StepCounts(l: Limiter, s: State, s': State)
    requires CountsInFlight(l, s) && Step(l, s, s')
    ensures CountsInFlight(l, s')
  {
    hide CountsInFlight, Arrive, Decide, Leave;
    if id, key :| Arrive(l, s, s', id, key) {
      ArriveCounts(l, s, s', id, key);
    } else if id :| Decide(l, s, s', id) {
      DecideCounts(l, s, s', id);
    } else {
      var id :| Leave(s, s', id);
      LeaveCounts(l, s, s', id);
    }
  }

  lemma StepSafe(l: Limiter, s: State, s': State, k: Bytes)
    requires CountsInFlight(l, s) && CountsInFlight(l, s') && Step(l, s, s') && Few(s')
    requires l.Counts(k) && WithinCap(l, s, k)
    ensures WithinCap(l, s', k)
  {
    hide CountsInFlight, Inc, Dec, Few;
    if id, key :| Arrive(l, s, s', id, key) {
      ArriveSafe(l, s, s', id, key, k);
    } else if id :| Decide(l, s, s', id) {
      BoundAfter(l, s, s', id, s'.requests[id], k);
      assert MayRun(l, s'.requests[id], k) ==> MayRun(l, s.requests[id], k);
      CardOfSubset(Bound(l, s', k), Bound(l, s, k));
    } else {
      var id :| Leave(s, s', id);
      BoundAfter(l, s, s', id, Done, k);
      CardOfSubset(Bound(l, s', k), Bound(l, s, k));
    }
  }

  /** A request that will be admitted saw, at its increment, at least as many requests as there are now that
      will be admitted. */
  lemma ArriveSafe(l: Limiter, s: State, s': State, id: nat, key: Bytes, k: Bytes)
    requires CountsInFlight(l, s') && Few(s') && Arrive(l, s, s', id, key)
    requires l.Counts(k) && WithinCap(l, s, k)
    ensures WithinCap(l, s', k)
  {
    hide Inc;
    var p := s'.requests[id];
    BoundAfter(l, s, s', id, p, k);
    if MayRun(l, p, k) {
      BoundIsInFlight(l, s', k);
      ValueSeen(l, s', k);
      assert p.value == s'.counters[k];
    } else {
      CardOfSubset(Bound(l, s', k), Bound(l, s, k));
    }
  }

  lemma BoundIsInFlight(l: Limiter, s: State, k: Bytes)
    requires l.Counts(k)
    ensures |Bound(l, s, k)| <= |InFlight(s, k)|
  {
    assert forall r <- Bound(l, s, k) :: r in InFlight(s, k);
    CardOfSubset(Bound(l, s, k), InFlight(s, k));
  }

  lemma ValueSeen(l: Limiter, s: State, k: Bytes)
    requires CountsInFlight(l, s) && Few(s) && l.Counts(k)
    ensures k in s.counters && s.counters[k] == |InFlight(s, k)|
  {
  }

  lemma {:induction false} RunCounts(l: Limiter, run: seq<State>, n: nat)
    requires IsRun(l, run) && n < |run|
    ensures CountsInFlight(l, run[n])
  {
    if n == 0 {
      assert forall k :: InFlight(run[0], k) == {};
    } else {
      var m: nat := n - 1;
      RunCounts(l, run, m);
      StepCounts(l, run[m], run[n]);
    }
  }

  lemma {:induction false} RunSafe(l: Limiter, run: seq<State>, n: nat)
    requires IsRun(l, run) && n < |run| && forall i :: 0 <= i < |run| ==> Few(run[i])
    ensures Safe(l, run[n])
  {
    RunCounts(l, run, n);
    if n == 0 {
      forall k <- run[0].counters ensures l.Counts(k) && WithinCap(l, run[0], k) {
        assert Bound(l, run[0], k) == {};
      }
    } else {
      var m: nat := n - 1;
      RunSafe(l, run, m);
      RunCounts(l, run, m);
      forall k <- run[n].counters ensures l.Counts(k) && WithinCap(l, run[n], k) {
        assert k in run[m].counters;
        StepSafe(l, run[m], run[n], k);
      }
    }
  }

  // ---------------------------------------------------------------------------------------------
  // Main results

  /** In every interleaving the counter of a key equals the number of its requests in flight, exactly as long
      as that number is below 2^32; when none is in flight it is 0. */
  lemma CounterIsInFlight(l: Limiter, run: seq<State>, n: nat, key: Bytes)
    requires IsRun(l, run) && n < |run| && l.Counts(key)
    ensures key in run[n].counters
    ensures run[n].counters[key] == |InFlight(run[n], key)| <==> |InFlight(run[n], key)| < MODULUS
    ensures InFlight(run[n], key) == {} ==> run[n].counters[key] == 0
  {
    RunCounts(l, run, n);
  }

  /** In every interleaving with fewer than 2^32 requests in flight: at most Max - 1 requests are past the
      global limiter, and at most the non-zero limit of its route past the router limiter. */
  lemma NeverAboveTheCap(l: Limiter, run: seq<State>, n: nat, key: Bytes)
    requires IsRun(l, run) && n < |run| && l.Counts(key) && l.Cap(key).Some?
    requires forall i :: 0 <= i < |run| ==> Few(run[i])
    ensures |Running(run[n], key)| <= l.Cap(key).value
  {
    RunSafe(l, run, n);
    RunCounts(l, run, n);
    CardOfSubset(Running(run[n], key), Bound(l, run[n], key));
  }

  lemma {:induction false} StillKnown(l: Limiter, run: seq<State>, m: nat, n: nat, id: nat)
    requires IsRun(l, run) && m <= n < |run| && id in run[m].requests
    ensures id in run[n].requests
    decreases n
  {
    if m < n {
      var p: nat := n - 1;
      StillKnown(l, run, m, p, id);
      assert Step(l, run[p], run[n]);
    }
  }

  /** A request that waits for its decision has waited, with the value it saw, since it arrived. */
  lemma {:induction false} CountedSince(l: Limiter, run: seq<State>, m: nat, n: nat, id: nat)
    requires IsRun(l, run) && m <= n < |run| && id in run[m].requests && id in run[n].requests
    requires run[n].requests[id].Counted?
    ensures run[m].requests[id] == run[n].requests[id]
    decreases n
  {
    if m < n {
      var p: nat := n - 1;
      StillKnown(l, run, m, p, id);
      assert Step(l, run[p], run[n]);
      CountedSince(l, run, m, p, id);
    }
  }

  /** The value is stale when it is compared, but no request is turned away or let in on account of that:
      whenever the comparison happens, a request is admitted exactly if, when it arrived, those in flight with
      it were within the cap. */
  lemma {:induction false} DecidedAsOfArrival(l: Limiter, run: seq<State>, m: nat, m': nat, n: nat, n': nat, id: nat,
                                              key: Bytes)
    requires IsRun(l, run) && l.Counts(key) && m' == m + 1 && m' <= n && n' == n + 1 && n' < |run|
    requires Arrive(l, run[m], run[m'], id, key) && Decide(l, run[n], run[n'], id)
    requires |InFlight(run[m'], key)| < MODULUS
    ensures run[n'].requests[id] ==
            if l.Cap(key).Some? ==> |InFlight(run[m'], key)| <= l.Cap(key).value then Admitted(key) else Rejected(key)
  {
    ArrivalValue(l, run, m, m', id, key);
    assert id in run[n].requests && run[n].requests[id].Counted?;
    CountedSince(l, run, m', n, id);
    hide IsRun, Arrive, InFlight;
  }

  lemma {:induction false} ArrivalValue(l: Limiter, run: seq<State>, m: nat, m': nat, id: nat, key: Bytes)
    requires IsRun(l, run) && l.Counts(key) && m' == m + 1 && m' < |run| && Arrive(l, run[m], run[m'], id, key)
    requires |InFlight(run[m'], key)| < MODULUS
    ensures id in run[m'].requests && run[m'].requests[id].Counted?
    ensures run[m'].requests[id].key == key && run[m'].requests[id].value == |InFlight(run[m'], key)| > 0
  {
    RunCounts(l, run, m);
    RunCounts(l, run, m');
    hide IsRun;
    ValueAtArrival(l, run[m], run[m'], id, key);
  }

  lemma {:induction false} ValueAtArrival(l: Limiter, s: State, s': State, id: nat, key: Bytes)
    requires CountsInFlight(l, s) && CountsInFlight(l, s') && l.Counts(key) && Arrive(l, s, s', id, key)
    requires |InFlight(s', key)| < MODULUS
    ensures id in s'.requests && s'.requests[id].Counted?
    ensures s'.requests[id].key == key && s'.requests[id].value == |InFlight(s', key)| > 0
  {
    assert key in s.counters && key in s'.counters;
    assert s'.counters[key] == |InFlight(s', key)| % MODULUS;
    hide CountsInFlight, InFlight, Inc;
    SmallRemainder(|InFlight(s', key)|);
    assert s'.requests[id] == Counted(key, s'.counters[key]);
    SomeInFlight(s', id, key);
  }

  lemma {:induction false} SmallRemainder(x: nat)
    requires x < MODULUS
    ensures x % MODULUS == x
  {
  }

  lemma {:induction false} SomeInFlight(s: State, id: nat, key: Bytes)
    requires id in s.requests && HasKey(s.requests[id], key)
    ensures |InFlight(s, key)| > 0
  {
    assert id in InFlight(s, key);
  }

  /** Requests of one route do not touch the counter of another. */
  lemma RoutesAreIndependent(l: Limiter, s: State, s': State, key: Bytes)
    requires Step(l, s, s') && key in s.counters
    requires forall id <- s'.requests :: id !in s.requests || s.requests[id] != s'.requests[id] ==>
               !(id in s.requests && HasKey(s.requests[id], key)) && !HasKey(s'.requests[id], key)
    ensures s'.counters[key] == s.counters[key] && InFlight(s', key) == InFlight(s, key)
  {
  }
}
