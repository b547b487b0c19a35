/** The cache middleware under concurrency: any number of requests, whose store reads, calls of Next, store
    writes and answers interleave in any order with each other, with the clock and with evictions. */
module CacheRuns {
  import opened Text
  import opened Decimal
  import opened HttpHeader
  import opened HeaderCodec
  import opened CacheControl
  import opened CacheCodec
  import opened CacheStore
  import opened CacheReply

  /** Where a request is inside the handler. */
  datatype Phase =
    | Fetching(key: Bytes)                             // the store had nothing; c.Next() is running
    | Saving(origin: Origin)                           // a hit is about to be stored
    | Marking(key: Bytes)                              // a hit-for-pass mark is about to be stored
    | Serving(key: Bytes, cp: CacheResponse, gotAt: nat)  // the store had a hit
    | Passing(key: Bytes)                              // the store had a mark
    | Done

  /** Where a stored hit comes from: the response of the handlers for this key, and when it was examined. */
  datatype Origin = Origin(key: Bytes, reply: Reply, decidedAt: nat, entry: CacheResponse, lifetime: nat, data: Bytes)

  datatype Saved = Saved(origin: Origin, savedAt: nat)

  /** `saved` remembers every hit ever stored; the middleware does not look at it. */
  datatype State = State(clock: nat, entries: map<Bytes, Bytes>, requests: map<nat, Phase>, saved: set<Saved>)

  /** Responses that net/http can produce and that fit the fixed-width fields of an entry. */
  ghost predicate Encodable(cfg: Config, r: Reply) {
    WellFormed(r.header) && 0 <= r.statusCode < 0x1_0000 && Fits(cfg.dict, r.header, cfg.ignoreHeaders)
  }

  function Ttl(lifetime: nat): int {
    Wrap64(lifetime * SECOND)
  }

  function Stored(w: Saved): Bytes {
    Stamped(w.origin.data, w.savedAt, Ttl(w.origin.lifetime))
  }

  function Lookup(s: State, key: Bytes): Bytes {
    Unstamped(if key in s.entries then Some(s.entries[key]) else None, s.clock)
  }

  // ---------------------------------------------------------------------------------------------
  // Steps

  ghost predicate Tick(s: State, s': State) {
    s.clock <= s'.clock && s' == s.(clock := s'.clock)
  }

  ghost predicate Evict(s: State, s': State) {
    exists k :: s' == s.(entries := s.entries - {k})
  }

  /** The switch on the status of what store.Get returned. */
  function PhaseFor(cfg: Config, s: State, key: Bytes): Phase {
    var cp := Decode(cfg.dict, Lookup(s, key));
    if cp.status == STATUS_HIT_FOR_PASS then Passing(key)
    else if cp.status == STATUS_HIT then Serving(key, cp, s.clock)
    else Fetching(key)
  }

  ghost predicate Begin(cfg: Config, s: State, s': State, id: nat, key: Bytes) {
    id !in s.requests && s' == s.(requests := s.requests[id := PhaseFor(cfg, s, key)])
  }

  /** c.Next() returned nil and left the response `reply`: isCacheable, Compress, Bytes. */
  ghost predicate Return(cfg: Config, s: State, s': State, id: nat, reply: Reply) {
    && id in s.requests && s.requests[id].Fetching? && Encodable(cfg, reply)
    && var key := s.requests[id].key;
       match Decide(cfg, reply, Seconds(s.clock))
       case Fail => s' == s.(requests := s.requests[id := Done])
       case MarkHitForPass => s' == s.(requests := s.requests[id := Marking(key)])
       case Keep(entry, lifetime) =>
         exists data ::
           && EncodesTo(cfg.dict, entry, cfg.ignoreHeaders, data)
           && s' == s.(requests := s.requests[id := Saving(Origin(key, reply, s.clock, entry, lifetime, data))])
  }

  /** c.Next() returned an error, or the request was a pass-through. */
  ghost predicate GiveUp(s: State, s': State, id: nat) {
    && id in s.requests && (s.requests[id].Fetching? || s.requests[id].Passing?)
    && s' == s.(requests := s.requests[id := Done])
  }

  ghost predicate Mark(s: State, s': State, id: nat) {
    && id in s.requests && s.requests[id].Marking?
    && exists ttl ::
         s' == s.(entries := s.entries[s.requests[id].key := Stamped([STATUS_HIT_FOR_PASS], s.clock, ttl)],
                  requests := s.requests[id := Done])
  }

  ghost predicate Save(s: State, s': State, id: nat) {
    && id in s.requests && s.requests[id].Saving?
    && var w := Saved(s.requests[id].origin, s.clock);
       s' == s.(entries := s.entries[w.origin.key := Stored(w)],
                requests := s.requests[id := Done],
                saved := s.saved + {w})
  }

  /** Answering from a hit: r0 is the response so far, r the outcome. */
  ghost predicate Serve(cfg: Config, s: State, s': State, id: nat, r0: Reply, acceptEncoding: Bytes, r: Option<Reply>) {
    && id in s.requests && s.requests[id].Serving?
    && Served(cfg, r0, s.requests[id].cp, s.clock, acceptEncoding, r)
    && s' == s.(requests := s.requests[id := Done])
  }

  ghost predicate Step(cfg: Config, s: State, s': State) {
    || Tick(s, s')
    || Evict(s, s')
    || (exists id, key :: Begin(cfg, s, s', id, key))
    || (exists id, reply :: Return(cfg, s, s', id, reply))
    || (exists id :: GiveUp(s, s', id))
    || (exists id :: Mark(s, s', id))
    || (exists id :: Save(s, s', id))
    || (exists id, r0, acceptEncoding, r :: Serve(cfg, s, s', id, r0, acceptEncoding, r))
  }

  ghost predicate Init(s: State) {
    s.entries == map[] && s.requests == map[] && s.saved == {}
  }

  ghost predicate IsRun(cfg: Config, run: seq<State>) {
    && run != [] && Init(run[0])
    && forall i, j :: 0 <= i < |run| && j == i + 1 && j < |run| ==> Step(cfg, run[i], run[j])
  }

  // ---------------------------------------------------------------------------------------------
  // The invariant

  ghost predicate Genuine(cfg: Config, o: Origin) {
    && Encodable(cfg, o.reply)
    && Decide(cfg, o.reply, Seconds(o.decidedAt)) == Keep(o.entry, o.lifetime)
    && EncodesTo(cfg.dict, o.entry, cfg.ignoreHeaders, o.data)
  }

  ghost predicate IsMark(value: Bytes) {
    exists at: nat, ttl :: value == Stamped([STATUS_HIT_FOR_PASS], at, ttl)
  }

  ghost predicate FromSaved(s: State, key: Bytes, value: Bytes) {
    exists w <- s.saved :: w.origin.key == key && value == Stored(w)
  }

  /** cp was read from the store at gotAt, from an entry that had not expired. */
  ghost predicate ReadFrom(cfg: Config, w: Saved, key: Bytes, cp: CacheResponse, gotAt: nat) {
    && w.origin.key == key && w.savedAt <= gotAt
    && Unstamped(Some(Stored(w)), gotAt) == w.origin.data
    && cp == Decode(cfg.dict, w.origin.data)
  }

  ghost predicate PhaseOk(cfg: Config, s: State, p: Phase) {
    match p
    case Saving(o) => Genuine(cfg, o) && o.decidedAt <= s.clock
    case Serving(key, cp, gotAt) => gotAt <= s.clock && exists w <- s.saved :: ReadFrom(cfg, w, key, cp, gotAt)
    case _ => true
  }

  ghost predicate Inv(cfg: Config, s: State) {
    && (forall k <- s.entries :: IsMark(s.entries[k]) || FromSaved(s, k, s.entries[k]))
    && (forall w <- s.saved :: Genuine(cfg, w.origin) && w.origin.decidedAt <= w.savedAt <= s.clock)
    && (forall id <- s.requests :: PhaseOk(cfg, s, s.requests[id]))
  }

  /** What a request finds in the store is nothing, a mark, or an unexpired hit saved earlier for its key. */
  lemma LookupFinds(cfg: Config, s: State, key: Bytes)
    requires cfg.Valid() && Inv(cfg, s)
    ensures var cp := Decode(cfg.dict, Lookup(s, key));
            cp.status == STATUS_HIT ==> exists w <- s.saved :: ReadFrom(cfg, w, key, cp, s.clock)
  {
    hide Decide, EncodesTo, Stamped, Unstamped, Encodable;
    assert Decode(cfg.dict, []).status == STATUS_UNKNOWN;
    assert Decode(cfg.dict, [STATUS_HIT_FOR_PASS]).status == STATUS_HIT_FOR_PASS;
    hide Decode;
    if key !in s.entries {
      assert Lookup(s, key) == [] by { NothingFound(s.clock); }
    } else if IsMark(s.entries[key]) {
      var at: nat, ttl :| s.entries[key] == Stamped([STATUS_HIT_FOR_PASS], at, ttl);
      UnstampedIsPayloadOrNothing([STATUS_HIT_FOR_PASS], at, ttl, s.clock);
    } else {
      var w :| w in s.saved && w.origin.key == key && s.entries[key] == Stored(w);
      UnstampedIsPayloadOrNothing(w.origin.data, w.savedAt, Ttl(w.origin.lifetime), s.clock);
      if Decode(cfg.dict, Lookup(s, key)).status == STATUS_HIT {
        assert ReadFrom(cfg, w, key, Decode(cfg.dict, Lookup(s, key)), s.clock);
      }
    }
  }

  lemma NothingFound(clock: nat)
    ensures Unstamped(None, clock) == []
  {
  }

  /** Phases and saved hits stay good when time passes and more hits are saved. */
  lemma PhaseStaysOk(cfg: Config, s: State, s': State, p: Phase)
    requires PhaseOk(cfg, s, p) && s.clock <= s'.clock && s.saved <= s'.saved
    ensures PhaseOk(cfg, s', p)
  {
  }

  lemma MovedOn(cfg: Config, s: State, id: nat, p: Phase)
    requires Inv(cfg, s) && PhaseOk(cfg, s, p)
    ensures Inv(cfg, s.(requests := s.requests[id := p]))
  {
    hide Genuine, Stamped, ReadFrom;
    var s' := s.(requests := s.requests[id := p]);
    forall r <- s'.requests ensures PhaseOk(cfg, s', s'.requests[r]) {
      PhaseStaysOk(cfg, s, s', s'.requests[r]);
    }
    forall k <- s'.entries ensures IsMark(s'.entries[k]) || FromSaved(s', k, s'.entries[k]) {
      StaysStored(s, s', k, s.entries[k]);
    }
  }

  lemma StaysStored(s: State, s': State, k: Bytes, value: Bytes)
    requires (IsMark(value) || FromSaved(s, k, value)) && s.saved <= s'.saved
    ensures IsMark(value) || FromSaved(s', k, value)
  {
    if !IsMark(value) {
      var w :| w in s.saved && w.origin.key == k && value == Stored(w);
      assert w in s'.saved;
    }
  }

  /** The clock moves on, an entry disappears, is overwritten with a mark, or with a hit that is remembered. */
  lemma StoreChanged(cfg: Config, s: State, s': State)
    requires Inv(cfg, s) && s.clock <= s'.clock && s'.requests == s.requests && s.saved <= s'.saved
    requires forall w <- s'.saved - s.saved :: Genuine(cfg, w.origin) && w.origin.decidedAt <= w.savedAt <= s'.clock
    requires forall k <- s'.entries :: (k in s.entries && s'.entries[k] == s.entries[k])
                                       || IsMark(s'.entries[k]) || FromSaved(s', k, s'.entries[k])
    ensures Inv(cfg, s')
  {
    hide Genuine, Stamped, ReadFrom;
    forall r <- s'.requests ensures PhaseOk(cfg, s', s'.requests[r]) {
      PhaseStaysOk(cfg, s, s', s'.requests[r]);
    }
    forall k <- s'.entries ensures IsMark(s'.entries[k]) || FromSaved(s', k, s'.entries[k]) {
      if k in s.entries && s'.entries[k] == s.entries[k] {
        StaysStored(s, s', k, s.entries[k]);
      }
    }
    forall w <- s'.saved ensures Genuine(cfg, w.origin) && w.origin.decidedAt <= w.savedAt <= s'.clock {
      assert w in s.saved || w in s'.saved - s.saved;
    }
  }

  lemma BeginKeepsInv(cfg: Config, s: State, s': State, id: nat, key: Bytes)
    requires cfg.Valid() && Inv(cfg, s) && Begin(cfg, s, s', id, key)
    ensures Inv(cfg, s')
  {
    LookupFinds(cfg, s, key);
    hide Genuine, Stamped, ReadFrom, Lookup, Decode, Inv;
    assert PhaseOk(cfg, s, PhaseFor(cfg, s, key));
    hide PhaseFor, PhaseOk;
    MovedOn(cfg, s, id, PhaseFor(cfg, s, key));
  }

  lemma ReturnKeepsInv(cfg: Config, s: State, s': State, id: nat, reply: Reply)
    requires Inv(cfg, s) && Return(cfg, s, s', id, reply)
    ensures Inv(cfg, s')
  {
    hide Decide, EncodesTo, Encodable, ReadFrom, Inv;
    MovedOn(cfg, s, id, s'.requests[id]);
  }

  lemma MarkKeepsInv(cfg: Config, s: State, s': State, id: nat)
    requires Inv(cfg, s) && Mark(s, s', id)
    ensures Inv(cfg, s')
  {
    hide Genuine, Stamped, ReadFrom, PhaseOk;
    var t := s'.(requests := s.requests);
    StoreChanged(cfg, s, t);
    DoneIsOk(cfg, t);
    MovedOn(cfg, t, id, Done);
  }

  lemma DoneIsOk(cfg: Config, s: State)
    ensures PhaseOk(cfg, s, Done)
  {
  }

  lemma SaveKeepsInv(cfg: Config, s: State, s': State, id: nat)
    requires Inv(cfg, s) && Save(s, s', id)
    ensures Inv(cfg, s')
  {
    hide Genuine, Stamped, ReadFrom;
    var w := Saved(s.requests[id].origin, s.clock);
    var t := s'.(requests := s.requests);
    assert PhaseOk(cfg, s, s.requests[id]);
    assert w in t.saved && FromSaved(t, w.origin.key, Stored(w));
    StoreChanged(cfg, s, t);
    DoneIsOk(cfg, t);
    MovedOn(cfg, t, id, Done);
  }

  lemma StepKeepsInv(cfg: Config, s: State, s': State)
    requires cfg.Valid() && Inv(cfg, s) && Step(cfg, s, s')
    ensures Inv(cfg, s')
  {
    hide Inv, Begin, Return, Mark, Save, Served;
    if Tick(s, s') || Evict(s, s') {
      StoreChanged(cfg, s, s');
    } else if id, key :| Begin(cfg, s, s', id, key) {
      BeginKeepsInv(cfg, s, s', id, key);
    } else if id, reply :| Return(cfg, s, s', id, reply) {
      ReturnKeepsInv(cfg, s, s', id, reply);
    } else if id :| GiveUp(s, s', id) {
      MovedOn(cfg, s, id, Done);
    } else if id :| Mark(s, s', id) {
      MarkKeepsInv(cfg, s, s', id);
    } else if id :| Save(s, s', id) {
      SaveKeepsInv(cfg, s, s', id);
    } else {
      var id, r0, acceptEncoding, r :| Serve(cfg, s, s', id, r0, acceptEncoding, r);
      MovedOn(cfg, s, id, Done);
    }
  }

  lemma {:induction false} RunKeepsInv(cfg: Config, run: seq<State>, n: nat)
    requires cfg.Valid() && IsRun(cfg, run) && n < |run|
    ensures Inv(cfg, run[n])
  {
    if n > 0 {
      var m: nat := n - 1;
      RunKeepsInv(cfg, run, m);
      StepKeepsInv(cfg, run[m], run[n]);
    }
  }

  // ---------------------------------------------------------------------------------------------
  // Main results

  /** The values of a header name on a hit, for a response that already had the header h0: the hit sets
      X-Cache and Age, drops Cache-Control, and adds the kept headers of the original. */
  ghost function SeenHeader(cfg: Config, o: Origin, h0: Header, age: nat, x: Bytes): seq<Bytes> {
    (if x == X_CACHE then [Ascii("hit")]
     else if x == AGE then [Digits(age)]
     else if x == CACHE_CONTROL then []
     else ValuesOf(h0, x)) +
    ValuesOf(Kept(o.reply.header, cfg.ignoreHeaders + DEFAULT_IGNORE_HEADERS), x)
  }

  lemma EntryDecodes(cfg: Config, o: Origin)
    requires cfg.Valid() && Genuine(cfg, o)
    ensures var ignore := cfg.ignoreHeaders + DEFAULT_IGNORE_HEADERS;
            Decode(cfg.dict, o.data) == o.entry.(header := Kept(o.reply.header, ignore))
    ensures o.entry.statusCode == o.reply.statusCode && o.entry.createdAt == Seconds(o.decidedAt)
    ensures o.reply.bodyBuffer.Some? ==> Holds(cfg, o.entry, o.reply.bodyBuffer.value)
    ensures o.reply.bodyBuffer.None? ==>
              cfg.marshal(o.reply.body).Some? && Holds(cfg, o.entry, cfg.marshal(o.reply.body).value)
    ensures IsCacheable(o.reply) == (true, o.lifetime) && o.lifetime > 0
  {
    KeptHoldsTheBody(cfg, o.reply, Seconds(o.decidedAt));
    hide Holds, BodyBytes, EncodesTo, Fits, Kept, GetCacheMaxAge;
    HitRoundTrip(cfg.dict, o.entry, cfg.ignoreHeaders, o.data);
  }

  /** r is the response that the handlers gave to the request of o: its status, its kept headers, and its body once
      the Content-Encoding of the answer is undone: the bytes of its BodyBuffer, or else of its Body marshalled. */
  ghost predicate AnswersWith(cfg: Config, o: Origin, r0: Reply, clock: nat, r: Reply) {
    && r.statusCode == o.reply.statusCode
    && (forall x :: x != CONTENT_ENCODING ==>
          ValuesOf(r.header, x) == SeenHeader(cfg, o, r0.header, AgeOf(Seconds(o.decidedAt), clock), x))
    && (o.reply.bodyBuffer.Some? ==> Obtains(cfg, o.reply.bodyBuffer.value, r0.bodyBuffer, r))
    && (o.reply.bodyBuffer.None? ==>
          && cfg.marshal(o.reply.body).Some?
          && Obtains(cfg, cfg.marshal(o.reply.body).value, r0.bodyBuffer, r))
  }

  lemma AnswerHeader(cfg: Config, o: Origin, r0: Reply, age: nat, h: Header, x: Bytes)
    requires Genuine(cfg, o)
    requires Merges(HitHeader(r0.header, age), Kept(o.reply.header, cfg.ignoreHeaders + DEFAULT_IGNORE_HEADERS), h)
    ensures ValuesOf(h, x) == SeenHeader(cfg, o, r0.header, age, x)
  {
    hide Decide, EncodesTo;
    var kept := Kept(o.reply.header, cfg.ignoreHeaders + DEFAULT_IGNORE_HEADERS);
    assert forall k <- kept :: k in o.reply.header;
    MergeAppends(HitHeader(r0.header, age), kept, h, x);
    HitHeaderAt(r0.header, age, x);
  }

  lemma HitHeaderAt(h: Header, age: nat, x: Bytes)
    ensures ValuesOf(HitHeader(h, age), x) ==
            if x == X_CACHE then [HIT]
            else if x == AGE then [Digits(age)]
            else if x == CACHE_CONTROL then []
            else ValuesOf(h, x)
  {
    assert |X_CACHE| == 7 && |AGE| == 3 && |CACHE_CONTROL| == 13;
  }

  lemma AnswerFrom(cfg: Config, o: Origin, clock: nat, r0: Reply, cp: CacheResponse, acceptEncoding: Bytes,
                   r: Option<Reply>)
    requires cfg.Valid() && Genuine(cfg, o) && cp == Decode(cfg.dict, o.data)
    requires Served(cfg, r0, cp, clock, acceptEncoding, r)
    ensures r.Some? && AnswersWith(cfg, o, r0, clock, r.value)
  {
    EntryDecodes(cfg, o);
    hide Genuine, Merges, HitHeader, SeenHeader, Decode, IsCacheable, AgeOf, Kept;
    var age := AgeOf(cp.createdAt, clock);
    var h :| Merges(HitHeader(r0.header, age), cp.header, h)
             && r == SetBody(cp, r0.(header := h, statusCode := cp.statusCode), acceptEncoding, cfg.compressor);
    forall x ensures ValuesOf(h, x) == SeenHeader(cfg, o, r0.header, age, x) {
      AnswerHeader(cfg, o, r0, age, h, x);
    }
    var r1 := r0.(header := h, statusCode := cp.statusCode);
    var bytes := if o.reply.bodyBuffer.Some? then o.reply.bodyBuffer.value else cfg.marshal(o.reply.body).value;
    assert Holds(cfg, cp, bytes);
    SetBodyDelivers(cfg, cp, bytes, r1, acceptEncoding);
    SetBodyTouches(cp, r1, acceptEncoding, cfg.compressor);
    hide SetBody, Obtains, Holds;
  }

  /** SetBody changes nothing but the body and its Content-Encoding. */
  lemma SetBodyTouches(cp: CacheResponse, r: Reply, acceptEncoding: Bytes, compressor: Option<Compressor>)
    ensures var r' := SetBody(cp, r, acceptEncoding, compressor);
            r'.Some? ==>
              && r'.value.statusCode == r.statusCode
              && forall x :: x != CONTENT_ENCODING ==> ValuesOf(r'.value.header, x) == ValuesOf(r.header, x)
  {
  }

  /** ... and that response was given earlier in the run. */
  ghost predicate ReturnedBefore(cfg: Config, run: seq<State>, n: nat, o: Origin) {
    exists m, k, id ::
      && 0 <= m < n && k == m + 1 && k < |run| && Return(cfg, run[m], run[k], id, o.reply)
      && run[m].requests[id].key == o.key && run[m].clock == o.decidedAt
  }

  lemma ReturnedStays(cfg: Config, run: seq<State>, n: nat, n': nat, o: Origin)
    requires n <= n' && ReturnedBefore(cfg, run, n, o)
    ensures ReturnedBefore(cfg, run, n', o)
  {
    var m, k, id :|
      && 0 <= m < n && k == m + 1 && k < |run| && Return(cfg, run[m], run[k], id, o.reply)
      && run[m].requests[id].key == o.key && run[m].clock == o.decidedAt;
  }

  /** What a step does to the saved hits and to the phase of one request. */
  lemma StepEffect(cfg: Config, s: State, s': State)
    requires Step(cfg, s, s')
    ensures forall w <- s'.saved :: w in s.saved || exists id <- s.requests :: s.requests[id] == Saving(w.origin)
    ensures forall id <- s'.requests :: s'.requests[id].Saving? ==>
              || (id in s.requests && s.requests[id] == s'.requests[id])
              || (Return(cfg, s, s', id, s'.requests[id].origin.reply)
                  && s.requests[id].key == s'.requests[id].origin.key
                  && s.clock == s'.requests[id].origin.decidedAt)
  {
    hide Decide, EncodesTo, Encodable, Served, Lookup, Decode, Stamped;
    if Tick(s, s') || Evict(s, s') {
    } else if id, key :| Begin(cfg, s, s', id, key) {
    } else if id, reply :| Return(cfg, s, s', id, reply) {
    } else if id :| GiveUp(s, s', id) {
    } else if id :| Mark(s, s', id) {
    } else if id :| Save(s, s', id) {
    } else {
      var id, r0, acceptEncoding, r :| Serve(cfg, s, s', id, r0, acceptEncoding, r);
    }
  }

  /** Every hit that is stored or about to be stored comes from a Return step. */
  lemma {:induction false} OriginsWereReturned(cfg: Config, run: seq<State>, n: nat)
    requires IsRun(cfg, run) && n < |run|
    ensures forall w <- run[n].saved :: ReturnedBefore(cfg, run, n, w.origin)
    ensures forall id <- run[n].requests :: run[n].requests[id].Saving? ==>
              ReturnedBefore(cfg, run, n, run[n].requests[id].origin)
  {
    hide Step, Return, ReturnedBefore;
    if n > 0 {
      var m: nat := n - 1;
      OriginsWereReturned(cfg, run, m);
      StepEffect(cfg, run[m], run[n]);
      forall id <- run[n].requests | run[n].requests[id].Saving?
        ensures ReturnedBefore(cfg, run, n, run[n].requests[id].origin)
      {
        var o := run[n].requests[id].origin;
        if id in run[m].requests && run[m].requests[id] == run[n].requests[id] {
          ReturnedStays(cfg, run, m, n, o);
        } else {
          ReturnedNow(cfg, run, m, id, o);
        }
      }
      forall w <- run[n].saved ensures ReturnedBefore(cfg, run, n, w.origin) {
        ReturnedStays(cfg, run, m, n, w.origin);
      }
    }
  }

  lemma ReturnedNow(cfg: Config, run: seq<State>, m: nat, id: nat, o: Origin)
    requires m + 1 < |run| && Return(cfg, run[m], run[m + 1], id, o.reply)
    requires run[m].requests[id].key == o.key && run[m].clock == o.decidedAt
    ensures ReturnedBefore(cfg, run, m + 1, o)
  {
  }

  /** Cache transparency.  In every interleaving of requests, ticks and evictions, every answer from the cache
      is, up to the ignored headers, a response that the handlers gave earlier in the run to a request for
      the same key, and that was cacheable when it was given. */
  lemma HitsAreTransparent(cfg: Config, run: seq<State>, n: nat, id: nat, r0: Reply, acceptEncoding: Bytes,
                           r: Option<Reply>)
    requires cfg.Valid() && IsRun(cfg, run) && n + 1 < |run|
    requires Serve(cfg, run[n], run[n + 1], id, r0, acceptEncoding, r)
    ensures r.Some?
    ensures exists w <- run[n].saved ::
              && ReadFrom(cfg, w, run[n].requests[id].key, run[n].requests[id].cp, run[n].requests[id].gotAt)
              && ReturnedBefore(cfg, run, n, w.origin)
              && IsCacheable(w.origin.reply) == (true, w.origin.lifetime)
              && AnswersWith(cfg, w.origin, r0, run[n].clock, r.value)
  {
    var s := run[n];
    var p := s.requests[id];
    RunKeepsInv(cfg, run, n);
    OriginsWereReturned(cfg, run, n);
    assert PhaseOk(cfg, s, p);
    var w :| w in s.saved && ReadFrom(cfg, w, p.key, p.cp, p.gotAt);
    assert Genuine(cfg, w.origin);
    EntryDecodes(cfg, w.origin);
    hide Genuine, ReturnedBefore, AnswersWith, Decode, IsCacheable, Inv, IsRun;
    AnswerFrom(cfg, w.origin, s.clock, r0, p.cp, acceptEncoding, r);
  }

  /** Of the headers that the handlers set, a hit has all but six and those configured, in any letter case; a list
      that is a single empty value is lost. */
  lemma {:induction false} HitHeaderValues(cfg: Config, o: Origin, r0: Reply, clock: nat, r: Reply, x: Bytes)
    requires AnswersWith(cfg, o, r0, clock, r) && x !in {CONTENT_ENCODING, X_CACHE, AGE, CACHE_CONTROL}
    ensures var dropped := [Ascii("Content-Encoding"), Ascii("Content-Length"), Ascii("Connection"), Ascii("Date"),
                            Ascii("Age"), Ascii("X-Cache")] + cfg.ignoreHeaders;
            var given := ValuesOf(o.reply.header, x);
            ValuesOf(r.header, x) ==
            ValuesOf(r0.header, x)
            + if given == [[]] || (exists n <- dropped :: Lower(n) == Lower(x)) then [] else given
  {
    var dropped := [Ascii("Content-Encoding"), Ascii("Content-Length"), Ascii("Connection"), Ascii("Date"),
                    Ascii("Age"), Ascii("X-Cache")] + cfg.ignoreHeaders;
    var ignore := cfg.ignoreHeaders + DEFAULT_IGNORE_HEADERS;
    assert forall n :: n in dropped <==> n in ignore;
    hide AgeOf, Ascii, Obtains, Lower;
  }

  /** So Content-Type always reaches the client of a hit, unless it is configured not to. */
  lemma {:induction false} ContentTypeIsServed(cfg: Config, o: Origin, r0: Reply, clock: nat, r: Reply)
    requires AnswersWith(cfg, o, r0, clock, r) && !Ignored(cfg.ignoreHeaders, CONTENT_TYPE)
    requires ValuesOf(o.reply.header, CONTENT_TYPE) != [[]]
    ensures ValuesOf(r.header, CONTENT_TYPE)
            == ValuesOf(r0.header, CONTENT_TYPE) + ValuesOf(o.reply.header, CONTENT_TYPE)
  {
    assert |CONTENT_TYPE| == 12 && |CONTENT_ENCODING| == 16 && |CACHE_CONTROL| == 13 && |AGE| == 3 && |X_CACHE| == 7;
    hide AnswersWith, Ascii, Lower, ValuesOf;
    HitHeaderValues(cfg, o, r0, clock, r, CONTENT_TYPE);
    ContentTypeIsNotDropped(cfg.ignoreHeaders);
  }

  lemma {:induction false} ContentTypeIsNotDropped(ignore: seq<Bytes>)
    requires !Ignored(ignore, CONTENT_TYPE)
    ensures var dropped := [Ascii("Content-Encoding"), Ascii("Content-Length"), Ascii("Connection"), Ascii("Date"),
                            Ascii("Age"), Ascii("X-Cache")] + ignore;
            !exists n <- dropped :: Lower(n) == Lower(CONTENT_TYPE)
  {
    var six := [Ascii("Content-Encoding"), Ascii("Content-Length"), Ascii("Connection"), Ascii("Date"),
                Ascii("Age"), Ascii("X-Cache")];
    assert |CONTENT_TYPE| == 12 && |six[0]| == 16 && |six[1]| == 14 && |six[2]| == 10 && |six[3]| == 4
           && |six[4]| == 3 && |six[5]| == 7;
    assert forall n <- six :: |Lower(n)| != |Lower(CONTENT_TYPE)|;
    hide Ascii, Lower;
    forall n <- six + ignore ensures Lower(n) != Lower(CONTENT_TYPE) {
      assert n in six || n in ignore;
    }
  }

  /** What a stored hit cannot have been: a reader, a response whose first Set-Cookie or Content-Encoding value is
      not empty, or one with a forbidding directive as the expression spells it. */
  lemma OnlyCacheableIsStored(cfg: Config, run: seq<State>, n: nat, w: Saved)
    requires cfg.Valid() && IsRun(cfg, run) && n < |run| && w in run[n].saved
    ensures var h := w.origin.reply.header; var cc := CacheControlOf(h);
            && First(h, SET_COOKIE) == [] && First(h, CONTENT_ENCODING) == [] && !w.origin.reply.body.Reader?
            && !Contains(cc, NO_CACHE) && !Contains(cc, NO_STORE) && !Contains(cc, PRIVATE)
            && w.origin.lifetime == GetCacheMaxAge(h) > 0
  {
    RunKeepsInv(cfg, run, n);
    assert Genuine(cfg, w.origin);
    OnlyCacheableIsKept(cfg, w.origin.reply, Seconds(w.origin.decidedAt));
  }

  /** A cookie behind an empty value, which the middleware does not see, reaches every client that is answered
      from the hit. */
  lemma {:induction false} HiddenCookieIsReplayed(cfg: Config, o: Origin, h0: Header, age: nat, cookie: Bytes)
    requires SET_COOKIE in o.reply.header && o.reply.header[SET_COOKIE] == [[], cookie]
    requires !Ignored(cfg.ignoreHeaders, SET_COOKIE)
    ensures cookie in SeenHeader(cfg, o, h0, age, SET_COOKIE)
  {
    var ignore := cfg.ignoreHeaders + DEFAULT_IGNORE_HEADERS;
    CookiesAreNotIgnoredByDefault();
    assert !Ignored(ignore, SET_COOKIE);
    var kept := ValuesOf(Kept(o.reply.header, ignore), SET_COOKIE);
    assert kept == [[], cookie] && kept[1] == cookie;
  }

  lemma {:induction false} CookiesAreNotIgnoredByDefault()
    ensures !Ignored(DEFAULT_IGNORE_HEADERS, SET_COOKIE)
  {
    assert |SET_COOKIE| == 10 && |CONTENT_ENCODING| == 16 && |CONTENT_LENGTH| == 14 && |AGE| == 3 && |X_CACHE| == 7;
    assert |Ascii("Date")| == 4;
    var c := Ascii("Connection");
    assert c[0] == CharByte('C') && SET_COOKIE[0] == CharByte('S');
    assert Lower(c)[0] != Lower(SET_COOKIE)[0];
  }

  // ---------------------------------------------------------------------------------------------
  // Freshness

  lemma TtlOfLifetime(lifetime: nat)
    requires lifetime < 0x1_0000_0000
    ensures TtlSeconds(Ttl(lifetime)) == lifetime
  {
    assert 0 <= lifetime * SECOND <= MAX_INT64;
    assert lifetime * SECOND / SECOND == lifetime;
  }

  /** The Age of an answer is the time since the response was examined, and exceeds the lifetime by no more
      than the seconds that passed between examining and storing it, and between reading the entry and
      answering: each of the four reads the clock anew. */
  lemma AgeBound(cfg: Config, run: seq<State>, n: nat, id: nat, w: Saved)
    requires cfg.Valid() && IsRun(cfg, run) && n < |run|
    requires id in run[n].requests && run[n].requests[id].Serving? && w in run[n].saved
    requires var p := run[n].requests[id]; ReadFrom(cfg, w, p.key, p.cp, p.gotAt)
    requires w.savedAt + w.origin.lifetime < 0x1_0000_0000 && run[n].clock < 0x1_0000_0000
    ensures var age := AgeOf(Seconds(w.origin.decidedAt), run[n].clock);
            && age == run[n].clock - w.origin.decidedAt
            && age <= w.origin.lifetime + (w.savedAt - w.origin.decidedAt) + (run[n].clock - run[n].requests[id].gotAt)
  {
    RunKeepsInv(cfg, run, n);
    var s := run[n];
    assert PhaseOk(cfg, s, s.requests[id]);
    assert Genuine(cfg, w.origin) && w.origin.decidedAt <= w.savedAt <= s.clock;
    AgeOfGenuine(cfg, w, s.requests[id], s.clock);
  }

  lemma AgeOfGenuine(cfg: Config, w: Saved, p: Phase, clock: nat)
    requires p.Serving? && p.gotAt <= clock && Genuine(cfg, w.origin) && w.origin.decidedAt <= w.savedAt
    requires ReadFrom(cfg, w, p.key, p.cp, p.gotAt)
    requires w.savedAt + w.origin.lifetime < 0x1_0000_0000 && clock < 0x1_0000_0000
    ensures var age := AgeOf(Seconds(w.origin.decidedAt), clock);
            && age == clock - w.origin.decidedAt
            && age <= w.origin.lifetime + (w.savedAt - w.origin.decidedAt) + (clock - p.gotAt)
  {
    hide Unstamped, Stamped, Decode, AgeOf, Ttl;
    EncodingIsNotEmpty(cfg, w.origin);
    assert ReadsBack(w.origin.data, w.savedAt, w.origin.lifetime, p.gotAt);
    hide Genuine, ReadFrom, ReadsBack;
    ExpiryIsKept(w.origin.data, w.savedAt, w.origin.lifetime, p.gotAt);
    AgeIsElapsed(w.origin.decidedAt, clock);
  }

  lemma AgeIsElapsed(decidedAt: nat, clock: nat)
    requires decidedAt <= clock < 0x1_0000_0000
    ensures AgeOf(Seconds(decidedAt), clock) == clock - decidedAt
  {
  }

  lemma EncodingIsNotEmpty(cfg: Config, o: Origin)
    requires Genuine(cfg, o)
    ensures o.data != []
  {
  }

  /** The store gives an entry back up to and including its expiry second. */
  ghost predicate ReadsBack(data: Bytes, savedAt: nat, lifetime: nat, gotAt: nat) {
    Unstamped(Some(Stamped(data, savedAt, Ttl(lifetime))), gotAt) == data
  }

  lemma ExpiryIsKept(data: Bytes, savedAt: nat, lifetime: nat, gotAt: nat)
    requires data != [] && savedAt + lifetime < 0x1_0000_0000 && gotAt < 0x1_0000_0000
    ensures ReadsBack(data, savedAt, lifetime, gotAt) <==> gotAt <= savedAt + lifetime
  {
    TtlOfLifetime(lifetime);
    StampRoundTrip(data, savedAt, Ttl(lifetime), gotAt);
  }

  /** No read of an entry leads to an Age beyond the lifetime, with `gap` seconds from the read to the answer. */
  ghost predicate NeverTooOld(data: Bytes, decidedAt: nat, savedAt: nat, lifetime: nat, gap: nat) {
    forall gotAt: nat ::
      savedAt <= gotAt && gotAt + gap < 0x1_0000_0000 && ReadsBack(data, savedAt, lifetime, gotAt)
      ==> AgeOf(Seconds(decidedAt), gotAt + gap) <= lifetime
  }

  /** So the bound Age <= lifetime holds for every read exactly when no second passes in those two gaps. */
  lemma AgeBoundIsTightOnlyWithoutGaps(data: Bytes, decidedAt: nat, gapToSave: nat, gapToServe: nat, lifetime: nat)
    requires data != [] && decidedAt + gapToSave + lifetime + gapToServe < 0x1_0000_0000
    ensures NeverTooOld(data, decidedAt, decidedAt + gapToSave, lifetime, gapToServe) <==> gapToSave + gapToServe == 0
  {
    hide ReadsBack;
    var savedAt: nat := decidedAt + gapToSave;
    forall gotAt: nat | gotAt < 0x1_0000_0000
      ensures ReadsBack(data, savedAt, lifetime, gotAt) <==> gotAt <= savedAt + lifetime
    {
      ExpiryIsKept(data, savedAt, lifetime, gotAt);
    }
    var last: nat := savedAt + lifetime;
    assert ReadsBack(data, savedAt, lifetime, last);
    assert AgeOf(Seconds(decidedAt), last + gapToServe) == lifetime + gapToSave + gapToServe;
  }

  // ---------------------------------------------------------------------------------------------
  // Fetch, hit, hit-for-pass

  lemma {:induction false} NothingIsFetched(cfg: Config, s: State, key: Bytes)
    requires key !in s.entries
    ensures PhaseFor(cfg, s, key) == Fetching(key)
  {
    assert Decode(cfg.dict, []).status == STATUS_UNKNOWN;
    assert Lookup(s, key) == [];
    hide Decode, Lookup;
  }

  /** A mark lets the requests for its key pass up to and including its expiry second; then one fetches again. */
  lemma {:induction false} MarkPassesUntilItExpires(cfg: Config, s: State, key: Bytes, at: nat, ttl: int)
    requires key in s.entries && s.entries[key] == Stamped([STATUS_HIT_FOR_PASS], at, ttl)
    requires at + TtlSeconds(ttl) < 0x1_0000_0000 && s.clock < 0x1_0000_0000
    ensures PhaseFor(cfg, s, key) == if s.clock <= at + TtlSeconds(ttl) then Passing(key) else Fetching(key)
  {
    assert Decode(cfg.dict, []).status == STATUS_UNKNOWN;
    assert Decode(cfg.dict, [STATUS_HIT_FOR_PASS]).status == STATUS_HIT_FOR_PASS;
    hide Decode, Stamped, Unstamped, TtlSeconds;
    StampRoundTrip([STATUS_HIT_FOR_PASS], at, ttl, s.clock);
  }

  lemma {:induction false} EntryIsHit(cfg: Config, o: Origin)
    requires cfg.Valid() && Genuine(cfg, o)
    ensures Decode(cfg.dict, o.data).status == STATUS_HIT
  {
    EntryDecodes(cfg, o);
    hide Decode, EncodesTo, Encodable, ToStore, IsCacheable, BodyBytes;
  }

  /** A hit answers them up to and including the last second of its lifetime, counted from when it was stored. */
  lemma {:induction false} HitAnswersUntilItExpires(cfg: Config, s: State, w: Saved)
    requires cfg.Valid() && Genuine(cfg, w.origin) && w.origin.key in s.entries && s.entries[w.origin.key] == Stored(w)
    requires w.savedAt + w.origin.lifetime < 0x1_0000_0000 && s.clock < 0x1_0000_0000
    ensures var key := w.origin.key;
            PhaseFor(cfg, s, key) ==
            if s.clock <= w.savedAt + w.origin.lifetime then Serving(key, Decode(cfg.dict, w.origin.data), s.clock)
            else Fetching(key)
  {
    EntryIsHit(cfg, w.origin);
    assert Decode(cfg.dict, []).status == STATUS_UNKNOWN;
    hide Genuine, Decode, Stamped, Unstamped, Ttl;
    TtlOfLifetime(w.origin.lifetime);
    StampRoundTrip(w.origin.data, w.savedAt, Ttl(w.origin.lifetime), s.clock);
  }
}
