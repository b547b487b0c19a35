/** A run of the cache that answers with a hit older than its lifetime. */
module CacheStale {
  import opened Text
  import opened Decimal
  import opened HttpHeader
  import opened HeaderCodec
  import opened CacheControl
  import opened CacheCodec
  import opened CacheStore
  import opened CacheReply
  import opened CacheRuns

  lemma {:induction false} Enumeration(keys: set<Bytes>) returns (order: seq<Bytes>)
    ensures Enumerates(order, keys)
    decreases |keys|
  {
    order := [];
    if keys != {} {
      var k :| k in keys;
      var rest := Enumeration(keys - {k});
      order := rest + [k];
      assert forall x :: x in order <==> x in rest || x == k;
    }
  }

  /** Every response that is kept has an encoding. */
  lemma {:induction false} Encoding(cfg: Config, entry: CacheResponse) returns (data: Bytes)
    requires entry.status == STATUS_HIT && 0 <= entry.statusCode
    ensures EncodesTo(cfg.dict, entry, cfg.ignoreHeaders, data)
  {
    var ignore := cfg.ignoreHeaders + DEFAULT_IGNORE_HEADERS;
    var order := Enumeration(KeptNames(entry.header, ignore));
    var headers := Join(EncodeInOrder(cfg.dict, entry.header, order), HEADERS_JOIN_SEP);
    data := Layout(entry, headers);
    assert Encodes(cfg.dict, entry.header, ignore, headers);
  }

  /** Every hit can be answered with. */
  lemma {:induction false} SomeAnswer(cfg: Config, r0: Reply, cp: CacheResponse, clock: nat, acceptEncoding: Bytes)
      returns (r: Option<Reply>)
    ensures Served(cfg, r0, cp, clock, acceptEncoding, r)
  {
    var order := Enumeration(cp.header.Keys);
    var h := MergeInOrder(HitHeader(r0.header, AgeOf(cp.createdAt, clock)), cp.header, order);
    assert Merges(HitHeader(r0.header, AgeOf(cp.createdAt, clock)), cp.header, h);
    hide Merges, HitHeader, AgeOf, SetBody;
    r := SetBody(cp, r0.(header := h, statusCode := cp.statusCode), acceptEncoding, cfg.compressor);
  }

  lemma {:induction false} Longer(cfg: Config, run: seq<State>, s: State)
    requires IsRun(cfg, run) && Step(cfg, run[|run| - 1], s)
    ensures IsRun(cfg, run + [s])
  {
    hide Step, Init;
    var longer := run + [s];
    forall i, j | 0 <= i < |longer| && j == i + 1 && j < |longer| ensures Step(cfg, longer[i], longer[j]) {
      assert i < |run| - 1 ==> longer[i] == run[i] && longer[j] == run[j];
    }
  }

  // ---------------------------------------------------------------------------------------------
  // The steps of the run

  lemma {:induction false} Ticks(cfg: Config, s: State, seconds: nat)
    ensures Step(cfg, s, s.(clock := s.clock + seconds))
  {
    assert Tick(s, s.(clock := s.clock + seconds));
  }

  lemma {:induction false} Misses(cfg: Config, s: State, id: nat, key: Bytes)
    requires id !in s.requests && key !in s.entries
    ensures Step(cfg, s, s.(requests := s.requests[id := Fetching(key)]))
  {
    NothingIsFetched(cfg, s, key);
    hide PhaseFor;
    assert Begin(cfg, s, s.(requests := s.requests[id := Fetching(key)]), id, key);
  }

  lemma {:induction false} Keeps(cfg: Config, s: State, id: nat, o: Origin)
    requires id in s.requests && s.requests[id] == Fetching(o.key) && Genuine(cfg, o) && o.decidedAt == s.clock
    ensures Step(cfg, s, s.(requests := s.requests[id := Saving(o)]))
  {
    hide Decide, EncodesTo, Encodable;
    assert Return(cfg, s, s.(requests := s.requests[id := Saving(o)]), id, o.reply);
  }

  lemma {:induction false} Saves(cfg: Config, s: State, id: nat, w: Saved)
    requires id in s.requests && s.requests[id] == Saving(w.origin) && w.savedAt == s.clock
    ensures Step(cfg, s, State(s.clock, s.entries[w.origin.key := Stored(w)], s.requests[id := Done], s.saved + {w}))
  {
    hide Stored;
    assert Save(s, State(s.clock, s.entries[w.origin.key := Stored(w)], s.requests[id := Done], s.saved + {w}), id);
  }

  /** The entry can be read up to its expiry second. */
  lemma {:induction false} Finds(cfg: Config, s: State, id: nat, w: Saved)
    requires cfg.Valid() && Genuine(cfg, w.origin) && w.origin.key in s.entries && s.entries[w.origin.key] == Stored(w)
    requires id !in s.requests && w.savedAt <= s.clock <= w.savedAt + w.origin.lifetime < 0x1_0000_0000
    ensures var cp := Decode(cfg.dict, w.origin.data);
            && ReadFrom(cfg, w, w.origin.key, cp, s.clock)
            && Step(cfg, s, s.(requests := s.requests[id := Serving(w.origin.key, cp, s.clock)]))
  {
    EntryDecodes(cfg, w.origin);
    EncodingIsNotEmpty(cfg, w.origin);
    ExpiryIsKept(w.origin.data, w.savedAt, w.origin.lifetime, s.clock);
    hide Genuine, Decode, Stamped, Unstamped, Ttl;
    var key, cp := w.origin.key, Decode(cfg.dict, w.origin.data);
    HitAnswersUntilItExpires(cfg, s, w);
    hide PhaseFor;
    assert Begin(cfg, s, s.(requests := s.requests[id := Serving(key, cp, s.clock)]), id, key);
  }

  lemma {:induction false} Answers(cfg: Config, s: State, id: nat, r0: Reply, acceptEncoding: Bytes, r: Option<Reply>)
    requires id in s.requests && s.requests[id].Serving?
    requires Served(cfg, r0, s.requests[id].cp, s.clock, acceptEncoding, r)
    ensures var s' := s.(requests := s.requests[id := Done]);
            Serve(cfg, s, s', id, r0, acceptEncoding, r) && Step(cfg, s, s')
  {
    hide Served;
    assert Serve(cfg, s, s.(requests := s.requests[id := Done]), id, r0, acceptEncoding, r);
  }

  // ---------------------------------------------------------------------------------------------
  // The run

  /** From the empty store to the moment the entry can just be read: request 0 fetches, request 1 finds. */
  lemma {:induction false} UpToTheRead(cfg: Config, w: Saved) returns (run: seq<State>)
    requires cfg.Valid() && Genuine(cfg, w.origin) && w.origin.decidedAt <= w.savedAt
    requires w.savedAt + w.origin.lifetime < 0x1_0000_0000
    ensures IsRun(cfg, run)
    ensures var s, cp := run[|run| - 1], Decode(cfg.dict, w.origin.data);
            && s.clock == w.savedAt + w.origin.lifetime && w in s.saved
            && 1 in s.requests && s.requests[1] == Serving(w.origin.key, cp, s.clock)
            && ReadFrom(cfg, w, w.origin.key, cp, s.clock)
  {
    var o := w.origin;
    hide Step, Genuine, Decode, ReadFrom, Stored, IsRun, Init;
    var s0 := State(o.decidedAt, map[], map[], {});
    run := [s0];
    FirstState(cfg, s0);
    var s1 := s0.(requests := s0.requests[0 := Fetching(o.key)]);
    Misses(cfg, s0, 0, o.key);
    Longer(cfg, run, s1);
    var s2 := s1.(requests := s1.requests[0 := Saving(o)]);
    Keeps(cfg, s1, 0, o);
    Longer(cfg, [s0] + [s1], s2);
    var gap: nat := w.savedAt - o.decidedAt;
    var s3 := s2.(clock := s2.clock + gap);
    Ticks(cfg, s2, gap);
    Longer(cfg, [s0] + [s1] + [s2], s3);
    var s4 := State(s3.clock, s3.entries[o.key := Stored(w)], s3.requests[0 := Done], s3.saved + {w});
    Saves(cfg, s3, 0, w);
    Longer(cfg, [s0] + [s1] + [s2] + [s3], s4);
    var s5 := s4.(clock := s4.clock + o.lifetime);
    Ticks(cfg, s4, o.lifetime);
    Longer(cfg, [s0] + [s1] + [s2] + [s3] + [s4], s5);
    var s6 := s5.(requests := s5.requests[1 := Serving(o.key, Decode(cfg.dict, o.data), s5.clock)]);
    Finds(cfg, s5, 1, w);
    Longer(cfg, [s0] + [s1] + [s2] + [s3] + [s4] + [s5], s6);
    run := [s0] + [s1] + [s2] + [s3] + [s4] + [s5] + [s6];
  }

  lemma {:induction false} FirstState(cfg: Config, s: State)
    requires Init(s)
    ensures IsRun(cfg, [s])
  {
  }

  /** The machine reaches hits that are too old: for every response that is kept, with any seconds between
      deciding and storing and between reading and answering, there is a run that ends by answering from its hit
      with an Age that exceeds the lifetime by exactly those seconds. */
  lemma {:induction false} StaleHitIsServed(cfg: Config, key: Bytes, reply: Reply, decidedAt: nat, toSave: nat,
                                            toServe: nat, r0: Reply, acceptEncoding: Bytes)
      returns (run: seq<State>, w: Saved, r: Option<Reply>)
    requires cfg.Valid() && Encodable(cfg, reply) && Decide(cfg, reply, Seconds(decidedAt)).Keep?
    requires decidedAt + toSave + Decide(cfg, reply, Seconds(decidedAt)).lifetime + toServe < 0x1_0000_0000
    ensures IsRun(cfg, run) && |run| >= 2
    ensures var s := run[|run| - 2];
            && Serve(cfg, s, run[|run| - 1], 1, r0, acceptEncoding, r)
            && w in s.saved && w.origin.reply == reply
            && ReadFrom(cfg, w, key, s.requests[1].cp, s.requests[1].gotAt)
            && AgeOf(Seconds(w.origin.decidedAt), s.clock) == w.origin.lifetime + toSave + toServe
  {
    var d := Decide(cfg, reply, Seconds(decidedAt));
    assert d.entry.status == STATUS_HIT && d.entry.statusCode == reply.statusCode;
    var data := Encoding(cfg, d.entry);
    var o := Origin(key, reply, decidedAt, d.entry, d.lifetime, data);
    w := Saved(o, decidedAt + toSave);
    assert Genuine(cfg, o);
    hide Decide, Genuine, Encodable, EncodesTo, ReadFrom, IsRun, Step, Serve, Decode, AgeOf;
    var first := UpToTheRead(cfg, w);
    var s := first[|first| - 1];
    var s7 := s.(clock := s.clock + toServe);
    Ticks(cfg, s, toServe);
    Longer(cfg, first, s7);
    r := SomeAnswer(cfg, r0, s7.requests[1].cp, s7.clock, acceptEncoding);
    Answers(cfg, s7, 1, r0, acceptEncoding, r);
    var s8 := s7.(requests := s7.requests[1 := Done]);
    Longer(cfg, first + [s7], s8);
    run := first + [s7] + [s8];
    AgeIsElapsed(decidedAt, s7.clock);
  }

  // ---------------------------------------------------------------------------------------------
  // Such responses exist

  /** A cache that does not store Cache-Control, and compresses nothing. */
  function SomeConfig(): Config {
    Config(HeaderIndexes([[]], map[]), [CACHE_CONTROL], None, (b: Body) => None)
  }

  /** A response with nothing but a lifetime. */
  function WithLifetime(seconds: nat): Reply {
    Reply(map[CACHE_CONTROL := [CacheMaxAge(seconds, None)]], 200, Some([]), NoBody)
  }

  /** Every lifetime from one second up is that of a response which is kept. */
  lemma {:induction false} EveryLifetimeOccurs(seconds: nat, now: uint32)
    requires 0 < seconds < 0x1_0000_0000
    ensures SomeConfig().Valid() && Encodable(SomeConfig(), WithLifetime(seconds))
    ensures var d := Decide(SomeConfig(), WithLifetime(seconds), now); d.Keep? && d.lifetime == seconds
  {
    SomeIsKept(seconds, now);
    SomeIsEncodable(seconds);
  }

  lemma {:induction false} SomeIsKept(seconds: nat, now: uint32)
    requires 0 < seconds < 0x1_0000_0000
    ensures var d := Decide(SomeConfig(), WithLifetime(seconds), now); d.Keep? && d.lifetime == seconds
  {
    var r := WithLifetime(seconds);
    assert |SET_COOKIE| == 10 && |AGE| == 3 && |CACHE_CONTROL| == 13 && |CONTENT_ENCODING| == 16;
    CacheMaxAgeRoundTrip(seconds, None, r.header);
    hide CacheMaxAge, GetCacheMaxAge;
    assert First(r.header, CONTENT_ENCODING) == [];
  }

  lemma {:induction false} SomeIsEncodable(seconds: nat)
    ensures SomeConfig().Valid() && Encodable(SomeConfig(), WithLifetime(seconds))
  {
    var cfg, r := SomeConfig(), WithLifetime(seconds);
    CacheControlIsCanonical();
    TextIsClean(seconds);
    hide CacheMaxAge, CanonicalName, Lower, Encodes, Clean;
    assert WellFormed(r.header);
    var ignore := cfg.ignoreHeaders + DEFAULT_IGNORE_HEADERS;
    assert ignore[0] == CACHE_CONTROL && CACHE_CONTROL in ignore;
    assert KeptNames(r.header, ignore) == {};
    forall headers | Encodes(cfg.dict, r.header, ignore, headers) ensures |headers| < 0x1_0000_0000 {
      NothingToEncode(cfg.dict, r.header, ignore, headers);
    }
  }

  lemma {:induction false} FirstIsKey(order: seq<Bytes>, keys: set<Bytes>)
    requires Enumerates(order, keys)
    ensures order != [] ==> order[0] in keys
  {
  }

  lemma {:induction false} NothingToEncode(d: HeaderIndexes, h: Header, ignore: seq<Bytes>, headers: Bytes)
    requires KeptNames(h, ignore) == {} && Encodes(d, h, ignore, headers)
    ensures headers == []
  {
    var order :| Enumerates(order, KeptNames(h, ignore))
                 && headers == Join(EncodeInOrder(d, h, order), HEADERS_JOIN_SEP);
    FirstIsKey(order, KeptNames(h, ignore));
  }

  lemma {:induction false} TextIsClean(seconds: nat)
    ensures Clean(CacheMaxAge(seconds, None))
  {
    assert forall c <- Digits(seconds) :: Digit(c);
    hide Digits;
    assert forall c <- PublicMaxAge() :: c >= 32;
  }

  /** Byte i has the case its place asks for. */
  predicate CasedAt(upper: bool, s: Bytes, i: nat)
    requires i < |s|
  {
    CanonicalByte(if i == 0 then upper else s[i - 1] == '-' as int, s[i]) == s[i]
  }

  lemma {:induction false} CasedIsCanonical(upper: bool, s: Bytes)
    requires forall i: nat :: i < |s| ==> CasedAt(upper, s, i)
    ensures CanonicalFrom(upper, s) == s
    decreases |s|
  {
    if s != [] {
      assert CasedAt(upper, s, 0);
      var rest, dash := s[1..], s[0] == '-' as int;
      forall i: nat | i < |rest| ensures CasedAt(dash, rest, i) {
        assert CasedAt(upper, s, i + 1);
      }
      CasedIsCanonical(dash, rest);
      assert s == [s[0]] + rest;
    }
  }

  lemma {:induction false} CasedIsName(s: Bytes)
    requires s != [] && forall i: nat :: i < |s| ==> TokenByte(s[i]) && CasedAt(true, s, i)
    ensures CanonicalName(s)
  {
    hide CanonicalFrom, TokenByte, CasedAt;
    CasedIsCanonical(true, s);
  }

  lemma {:induction false} CacheControlIsCanonical()
    ensures CanonicalName(CACHE_CONTROL)
  {
    CacheControlLetters(CACHE_CONTROL);
    hide *;
    CasedIsName(CACHE_CONTROL);
  }

  lemma {:induction false} CacheControlLetters(s: Bytes)
    requires s == CACHE_CONTROL
    ensures s != [] && forall i: nat :: i < |s| ==> TokenByte(s[i]) && CasedAt(true, s, i)
  {
    assert |s| == 13;
    assert s[0] == 67 && s[1] == 97 && s[2] == 99 && s[3] == 104 && s[4] == 101 && s[5] == 45;
    assert s[6] == 67 && s[7] == 111 && s[8] == 110 && s[9] == 116 && s[10] == 114 && s[11] == 111 && s[12] == 108;
  }
}
