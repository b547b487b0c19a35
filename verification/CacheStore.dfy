/** The LRU-backed cache store with its expiry prefix (middleware/lru_store.go). */
module CacheStore {
  import opened Text

  const EXPIRED_BYTE_SIZE := 4
  const SECOND := 1_000_000_000

  /** uint32(t), for a Unix time in seconds. */
  function Seconds(clock: nat): (n: nat)
    ensures n < 0x1_0000_0000
    ensures clock < 0x1_0000_0000 ==> n == clock
  {
    clock % 0x1_0000_0000
  }

  /** uint32(ttl/time.Second), for a duration in nanoseconds; Go's division truncates toward zero. */
  function TtlSeconds(ttl: int): (n: nat)
    ensures n < 0x1_0000_0000
  {
    (if ttl >= 0 then ttl / SECOND else -(-ttl / SECOND)) % 0x1_0000_0000
  }

  /** What Set stores: the expiry, then the payload. */
  function Stamped(data: Bytes, clock: nat, ttl: int): (value: Bytes)
    ensures |value| == EXPIRED_BYTE_SIZE + |data|
  {
    PutUint32((Seconds(clock) + TtlSeconds(ttl)) % 0x1_0000_0000) + data
  }

  /** What Get makes of a stored value; [] is nil. */
  function Unstamped(value: Option<Bytes>, clock: nat): Bytes {
    if value.None? || |value.value| < EXPIRED_BYTE_SIZE then []
    else if Seconds(clock) > Uint32(value.value) then []
    else value.value[EXPIRED_BYTE_SIZE..]
  }

  class LRUStore {
    var entries: map<Bytes, Bytes>

    constructor ()
      ensures entries == map[]
    {
      entries := map[];
    }

    method Get(key: Bytes, clock: nat) returns (data: Bytes)
      ensures data == Unstamped(if key in entries then Some(entries[key]) else None, clock)
    {
      if key !in entries {
        return [];
      }
      var value := entries[key];
      if |value| < EXPIRED_BYTE_SIZE {
        return [];
      }
      var expired := Uint32(value);
      if Seconds(clock) > expired {
        return [];
      }
      data := value[EXPIRED_BYTE_SIZE..];
    }

    method Set(key: Bytes, data: Bytes, clock: nat, ttl: int)
      modifies this
      ensures entries == old(entries)[key := Stamped(data, clock, ttl)]
    {
      var buf := new byte[|data| + EXPIRED_BYTE_SIZE](_ => 0);
      var expired := PutUint32((Seconds(clock) + TtlSeconds(ttl)) % 0x1_0000_0000);
      ghost var before := entries;
      for i := 0 to EXPIRED_BYTE_SIZE
        invariant entries == before && buf[..i] == expired[..i]
      {
        buf[i] := expired[i];
      }
      for i := 0 to |data|
        invariant entries == before && buf[..EXPIRED_BYTE_SIZE] == expired
        invariant forall k :: 0 <= k < i ==> buf[EXPIRED_BYTE_SIZE + k] == data[k]
      {
        buf[EXPIRED_BYTE_SIZE + i] := data[i];
      }
      assert buf[..] == expired + data;
      entries := entries[key := buf[..]];
    }

    /** The LRU may drop any entry at any time. */
    method Evict(key: Bytes)
      modifies this
      ensures entries == old(entries) - {key}
    {
      entries := entries - {key};
    }
  }

  /** A positive duration counts in whole seconds, rounded down. */
  lemma {:induction false} TtlIsWholeSeconds(ttl: nat)
    requires ttl < 0x1_0000_0000 * SECOND
    ensures TtlSeconds(ttl) * SECOND <= ttl < (TtlSeconds(ttl) + 1) * SECOND
  {
    assert ttl / SECOND < 0x1_0000_0000;
  }

  /** A stored value reads back as its payload exactly until its expiry second has passed. */
  lemma StampRoundTrip(data: Bytes, saved: nat, ttl: int, clock: nat)
    requires saved + TtlSeconds(ttl) < 0x1_0000_0000 && clock < 0x1_0000_0000
    ensures Unstamped(Some(Stamped(data, saved, ttl)), clock) == if clock > saved + TtlSeconds(ttl) then [] else data
  {
    hide PutUint32, Uint32, TtlSeconds;
    Uint32RoundTrip(saved + TtlSeconds(ttl), data);
    assert Stamped(data, saved, ttl)[EXPIRED_BYTE_SIZE..] == data;
  }

  /** Whatever the clocks, a read gives the payload or nothing. */
  lemma UnstampedIsPayloadOrNothing(data: Bytes, saved: nat, ttl: int, clock: nat)
    ensures var r := Unstamped(Some(Stamped(data, saved, ttl)), clock); r == data || r == []
  {
    assert Stamped(data, saved, ttl)[EXPIRED_BYTE_SIZE..] == data;
  }
}
