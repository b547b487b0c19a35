/** The compact encoding of response headers in cache entries (middleware/http_header.go). */
module HeaderCodec {
  import opened Text
  import opened HttpHeader

  const HEADERS_JOIN_SEP: byte := 0
  const VALUE_SEP: byte := 10
  const HEADER_VALUE_SEP: byte := 58
  const MAX_SHORT_HEADER := 128
  const NONE_MATCH_HEADER: byte := 255

  // ---------------------------------------------------------------------------------------------
  // The short-header dictionary

  datatype HeaderIndexes = HeaderIndexes(values: seq<Bytes>, indexes: map<Bytes, byte>) {

    /** Every indexed name is found again at its index; index 0 is kept free. */
    ghost predicate Valid() {
      && 1 <= |values| <= MAX_SHORT_HEADER && values[0] == []
      && forall n <- indexes :: 1 <= indexes[n] as int < |values| && values[indexes[n]] == n
    }

    function GetName(index: nat): Bytes {
      if index >= |values| then [] else values[index]
    }

    function GetIndex(name: Bytes): Option<byte> {
      if Lower(name) in indexes then Some(indexes[Lower(name)]) else None
    }
  }

  predicate SpaceByte(c: byte) {
    c == 32 || 9 <= c <= 13
  }

  /** strings.TrimSpace on ASCII. */
  function TrimSpace(s: Bytes): Bytes {
    TrimRight(TrimLeft(s))
  }

  function TrimLeft(s: Bytes): Bytes {
    if s != [] && SpaceByte(s[0]) then TrimLeft(s[1..]) else s
  }

  function TrimRight(s: Bytes): Bytes {
    if s != [] && SpaceByte(s[|s| - 1]) then TrimRight(s[..|s| - 1]) else s
  }

  /** SetShortHeaders: None is the panic for too long a list.  Whatever the names (repeated, empty, padded,
      in any case), the dictionary is consistent, and knows exactly the folded names. */
  method SetShortHeaders(names: seq<Bytes>) returns (r: Option<HeaderIndexes>)
    ensures r.None? <==> |names| >= MAX_SHORT_HEADER
    ensures r.Some? ==>
              && r.value.Valid() && |r.value.values| == |names| + 1
              && r.value.indexes.Keys == set n <- names :: Lower(TrimSpace(n))
  {
    if |names| >= MAX_SHORT_HEADER {
      return None;
    }
    var arr: array<Bytes> := new Bytes[|names| + 1](_ => []);
    var indexes: map<Bytes, byte> := map[];
    for i := 0 to |names|
      invariant arr[0] == []
      invariant forall n <- indexes :: 1 <= indexes[n] as int <= i && arr[indexes[n] as int] == n
      invariant indexes.Keys == set n <- names[..i] :: Lower(TrimSpace(n))
    {
      var index := i + 1;
      var value := Lower(TrimSpace(names[i]));
      arr[index] := value;
      indexes := indexes[value := index];
      assert names[..i + 1] == names[..i] + [names[i]];
    }
    assert names[..|names|] == names;
    r := Some(HeaderIndexes(arr[..], indexes));
  }

  // ---------------------------------------------------------------------------------------------
  // One header

  function ToValues(data: Bytes): seq<Bytes> {
    if data == [] then [] else Split(data, VALUE_SEP)
  }

  function NewHTTPHeader(d: HeaderIndexes, name: Bytes, values: seq<Bytes>): Bytes {
    var value := Join(values, VALUE_SEP);
    match d.GetIndex(name)
    case Some(index) => [index] + value
    case None => [NONE_MATCH_HEADER] + name + [HEADER_VALUE_SEP] + value
  }

  /** HTTPHeader.Header: the name and values of an encoded header; no name means "skip it". */
  function Header1(d: HeaderIndexes, h: Bytes): (Bytes, seq<Bytes>) {
    if h == [] then ([], [])
    else
      var data := h[1..];
      if h[0] < MAX_SHORT_HEADER then (d.GetName(h[0]), ToValues(data))
      else
        var index := IndexByte(data, HEADER_VALUE_SEP);
        if index == |data| then ([], []) else (data[..index], ToValues(data[index + 1..]))
  }

  /** Names and values that net/http accepts. */
  predicate Clean(s: Bytes) {
    HEADERS_JOIN_SEP !in s && VALUE_SEP !in s
  }

  /** A header map as net/http keeps it. */
  ghost predicate WellFormed(h: Header) {
    forall k <- h :: CanonicalName(k) && forall v <- h[k] :: Clean(v)
  }

  /** The values that come back: an absent list and a single empty value look the same. */
  function Surviving(values: seq<Bytes>): seq<Bytes> {
    if values == [[]] then [] else values
  }

  lemma ToValuesOfJoin(values: seq<Bytes>)
    requires forall v <- values :: VALUE_SEP !in v
    ensures ToValues(Join(values, VALUE_SEP)) == Surviving(values)
  {
    if values != [] && values != [[]] {
      SplitJoin(values, VALUE_SEP);
      assert Join(values, VALUE_SEP) != [] by {
        if |values| == 1 { assert values == [values[0]]; }
      }
    }
  }

  /** A header decodes to its name, up to case, and its surviving values, whatever the dictionary. */
  lemma HeaderRoundTrip(d: HeaderIndexes, name: Bytes, values: seq<Bytes>)
    requires d.Valid() && CanonicalName(name) && forall v <- values :: Clean(v)
    ensures var (n, vs) := Header1(d, NewHTTPHeader(d, name, values));
            n != [] && Canonical(n) == name && vs == Surviving(values)
  {
    var value := Join(values, VALUE_SEP);
    ToValuesOfJoin(values);
    match d.GetIndex(name)
    case Some(index) =>
      CanonicalLower(name);
      assert ([index] + value)[1..] == value;
    case None =>
      var data := name + [HEADER_VALUE_SEP] + value;
      assert NewHTTPHeader(d, name, values)[1..] == data;
      IndexByteAt(name, HEADER_VALUE_SEP, value);
      assert data[..|name|] == name && data[|name| + 1..] == value;
  }

  /** ... and it can be told apart from its neighbours. */
  lemma HeaderHasNoSeparator(d: HeaderIndexes, name: Bytes, values: seq<Bytes>)
    requires d.Valid() && CanonicalName(name) && forall v <- values :: Clean(v)
    ensures HEADERS_JOIN_SEP !in NewHTTPHeader(d, name, values)
  {
    JoinAvoids(values, VALUE_SEP, HEADERS_JOIN_SEP);
    assert forall c <- name :: TokenByte(c);
  }

  // ---------------------------------------------------------------------------------------------
  // All headers

  ghost predicate Ignored(ignore: seq<Bytes>, name: Bytes) {
    exists n <- ignore :: Lower(n) == Lower(name)
  }

  ghost function KeptNames(h: Header, ignore: seq<Bytes>): set<Bytes> {
    set k <- h | !Ignored(ignore, k)
  }

  /** What the encoding is meant to carry: the header minus the ignored names and the lost empty values. */
  ghost function Kept(h: Header, ignore: seq<Bytes>): Header {
    map k <- h | !Ignored(ignore, k) && Surviving(h[k]) != [] :: h[k]
  }

  function EncodeInOrder(d: HeaderIndexes, h: Header, order: seq<Bytes>): (r: seq<Bytes>)
    ensures |r| == |order|
    ensures forall i :: 0 <= i < |order| ==> r[i] == NewHTTPHeader(d, order[i], ValuesOf(h, order[i]))
  {
    seq(|order|, i requires 0 <= i < |order| => NewHTTPHeader(d, order[i], ValuesOf(h, order[i])))
  }

  /** `order` lists every name of `keys` once: an order in which Go may iterate over the map. */
  ghost predicate Enumerates(order: seq<Bytes>, keys: set<Bytes>) {
    && (forall i, j :: 0 <= i < j < |order| ==> order[i] != order[j])
    && (forall k :: k in order <==> k in keys)
  }

  /** NewHTTPHeaders: the kept headers, encoded in some iteration order. */
  ghost predicate Encodes(d: HeaderIndexes, h: Header, ignore: seq<Bytes>, data: Bytes) {
    exists order :: Enumerates(order, KeptNames(h, ignore))
                    && data == Join(EncodeInOrder(d, h, order), HEADERS_JOIN_SEP)
  }

  method NewHTTPHeaders(d: HeaderIndexes, h: Header, ignoreHeaders: seq<Bytes>) returns (data: Bytes)
    ensures Encodes(d, h, ignoreHeaders, data)
  {
    var ignore: set<Bytes> := {};
    for i := 0 to |ignoreHeaders|
      invariant ignore == set n <- ignoreHeaders[..i] :: Lower(n)
    {
      ignore := ignore + {Lower(ignoreHeaders[i])};
      assert ignoreHeaders[..i + 1] == ignoreHeaders[..i] + [ignoreHeaders[i]];
    }
    assert ignoreHeaders[..|ignoreHeaders|] == ignoreHeaders;
    var arr: seq<Bytes> := [];
    var left := h.Keys;
    ghost var order: seq<Bytes> := [];
    while left != {}
      invariant left <= h.Keys
      invariant Enumerates(order, KeptNames(h, ignoreHeaders) - left)
      invariant arr == EncodeInOrder(d, h, order)
      decreases left
    {
      var name :| name in left;
      left := left - {name};
      if Lower(name) !in ignore {
        assert name !in order;
        order := order + [name];
        arr := arr + [NewHTTPHeader(d, name, h[name])];
      }
    }
    data := Join(arr, HEADERS_JOIN_SEP);
  }

  function DecodeItems(d: HeaderIndexes, items: seq<Bytes>, h: Header): Header
    decreases |items|
  {
    if items == [] then h
    else
      var (name, values) := Header1(d, items[0]);
      DecodeItems(d, items[1..], if name == [] then h else AddAll(h, name, values))
  }

  /** HTTPHeaders.Header. */
  function DecodeHeaders(d: HeaderIndexes, data: Bytes): Header {
    DecodeItems(d, Split(data, HEADERS_JOIN_SEP), map[])
  }

  /** The loop of HTTPHeaders.Header. */
  method HeaderOf(d: HeaderIndexes, data: Bytes) returns (h: Header)
    ensures h == DecodeHeaders(d, data)
  {
    h := map[];
    var items := Split(data, HEADERS_JOIN_SEP);
    for i := 0 to |items|
      invariant DecodeItems(d, items[i..], h) == DecodeHeaders(d, data)
    {
      var (name, values) := Header1(d, items[i]);
      assert items[i..][1..] == items[i + 1..];
      if name != [] {
        ghost var before := h;
        for j := 0 to |values|
          invariant AddAll(h, name, values[j..]) == AddAll(before, name, values)
        {
          assert values[j..][1..] == values[j + 1..];
          h := Add(h, name, values[j]);
        }
      }
    }
  }

  /** acc with the surviving values of each of these names. */
  ghost function WithNames(h: Header, order: seq<Bytes>, acc: Header): Header
    decreases |order|
  {
    if order == [] then acc
    else
      var k := order[0];
      WithNames(h, order[1..], if Surviving(ValuesOf(h, k)) == [] then acc else acc[k := ValuesOf(h, k)])
  }

  lemma {:induction false} DecodeInOrder(d: HeaderIndexes, h: Header, order: seq<Bytes>, acc: Header)
    requires d.Valid() && WellFormed(h)
    requires forall k <- order :: k in h && k !in acc
    requires forall i, j :: 0 <= i < j < |order| ==> order[i] != order[j]
    ensures DecodeItems(d, EncodeInOrder(d, h, order), acc) == WithNames(h, order, acc)
    decreases |order|
  {
    if order != [] {
      var k, rest := order[0], order[1..];
      assert forall i :: 0 <= i < |rest| ==> rest[i] == order[i + 1];
      HeaderRoundTrip(d, k, h[k]);
      var (n, vs) := Header1(d, NewHTTPHeader(d, k, h[k]));
      AddAllAppends(acc, n, vs);
      assert EncodeInOrder(d, h, order)[1..] == EncodeInOrder(d, h, rest);
      var acc1 := AddAll(acc, n, vs);
      assert acc1 == if vs == [] then acc else acc[k := vs] by {
        assert ValuesOf(acc, k) == [] && [] + vs == vs;
      }
      assert vs != [] ==> vs == h[k];
      forall x <- rest ensures x in h && x !in acc1 {
        var i :| 0 <= i < |rest| && rest[i] == x;
        assert order[i + 1] == x && order[0] == k;
      }
      DecodeInOrder(d, h, rest, acc1);
    }
  }

  lemma {:induction false} WithNamesAt(h: Header, order: seq<Bytes>, acc: Header, x: Bytes)
    ensures var picked, r := x in order && Surviving(ValuesOf(h, x)) != [], WithNames(h, order, acc);
            && (x in r <==> x in acc || picked)
            && (x in r ==> r[x] == if picked then ValuesOf(h, x) else acc[x])
    decreases |order|
  {
    if order != [] {
      var k, rest := order[0], order[1..];
      assert order == [k] + rest;
      WithNamesAt(h, rest, if Surviving(ValuesOf(h, k)) == [] then acc else acc[k := ValuesOf(h, k)], x);
    }
  }

  /** Decoding restores the header map minus the ignored names and the lost empty values, whatever the
      dictionary and whatever the order in which the map was iterated. */
  lemma HeadersRoundTrip(d: HeaderIndexes, h: Header, ignore: seq<Bytes>, data: Bytes)
    requires d.Valid() && WellFormed(h) && Encodes(d, h, ignore, data)
    ensures DecodeHeaders(d, data) == Kept(h, ignore)
  {
    var order :| Enumerates(order, KeptNames(h, ignore)) && data == Join(EncodeInOrder(d, h, order), HEADERS_JOIN_SEP);
    JoinedInOrder(d, h, order);
    hide EncodeInOrder, DecodeHeaders, Join, WellFormed;
    forall x ensures x in WithNames(h, order, map[]) <==> x in Kept(h, ignore)
             ensures x in Kept(h, ignore) ==> WithNames(h, order, map[])[x] == Kept(h, ignore)[x]
    {
      WithNamesAt(h, order, map[], x);
    }
  }

  lemma JoinedInOrder(d: HeaderIndexes, h: Header, order: seq<Bytes>)
    requires d.Valid() && WellFormed(h)
    requires forall k <- order :: k in h
    requires forall i, j :: 0 <= i < j < |order| ==> order[i] != order[j]
    ensures DecodeHeaders(d, Join(EncodeInOrder(d, h, order), HEADERS_JOIN_SEP)) == WithNames(h, order, map[])
  {
    var items := EncodeInOrder(d, h, order);
    DecodeInOrder(d, h, order, map[]);
    if order == [] {
      var empty: Bytes := [];
      assert IndexByte(empty, HEADERS_JOIN_SEP) == 0;
      assert Split(empty, HEADERS_JOIN_SEP) == [empty];
      assert DecodeItems(d, [empty], map[]) == DecodeItems(d, [empty][1..], map[]) == map[];
    } else {
      forall i | 0 <= i < |items| ensures HEADERS_JOIN_SEP !in items[i] {
        HeaderHasNoSeparator(d, order[i], h[order[i]]);
      }
      SplitJoin(items, HEADERS_JOIN_SEP);
    }
  }
}
