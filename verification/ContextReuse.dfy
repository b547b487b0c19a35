/** Recycled contexts (context.go, elton.go, route_params.go): Reset and the filling of parameters reuse old
    storage, and what a request sees does not depend on what was in it. */
module ContextReuse {
  import opened Text

  type PathValue = Bytes -> Bytes

  // ---------------------------------------------------------------------------------------------
  // RouteParams

  /** What Get finds: the first entry of the key. */
  function Lookup(keys: seq<Bytes>, values: seq<Bytes>, key: Bytes): Bytes
    requires |keys| == |values|
  {
    if keys == [] then []
    else if keys[0] == key then values[0]
    else Lookup(keys[1..], values[1..], key)
  }

  /** What ToMap makes of the entries: the last one of a key counts. */
  function AsMap(keys: seq<Bytes>, values: seq<Bytes>): (m: map<Bytes, Bytes>)
    requires |keys| == |values|
    ensures m.Keys == set k <- keys
  {
    if keys == [] then map[]
    else
      var n := |keys| - 1;
      assert keys == keys[..n] + [keys[n]];
      AsMap(keys[..n], values[..n])[keys[n] := values[n]]
  }

  function PathValues(names: seq<Bytes>, pathValue: PathValue): (vs: seq<Bytes>)
    ensures |vs| == |names| && forall i :: 0 <= i < |names| ==> vs[i] == pathValue(names[i])
  {
    seq(|names|, i requires 0 <= i < |names| => pathValue(names[i]))
  }

  /** Two parallel slices.  `keys` and `values` are the storage behind them. */
  class RouteParams {
    var keys: array<Bytes>
    var keyCount: nat
    var values: array<Bytes>
    var valueCount: nat

    /** The framework keeps the two slices in step, in length and in capacity: it looks at the capacity of the
        keys only. */
    ghost predicate Valid()
      reads this
    {
      keys != values && keyCount == valueCount <= keys.Length == values.Length
    }

    ghost function Keys(): seq<Bytes>
      reads this, keys
      requires Valid()
    {
      keys[..keyCount]
    }

    ghost function Values(): seq<Bytes>
      reads this, values
      requires Valid()
    {
      values[..valueCount]
    }

    constructor ()
      ensures Valid() && Keys() == [] && Values() == [] && fresh(keys) && fresh(values)
    {
      keys, values := new Bytes[0](_ => []), new Bytes[0](_ => []);
      keyCount, valueCount := 0, 0;
    }

    method Reset()
      requires Valid()
      modifies this
      ensures Valid() && Keys() == [] && Values() == [] && keys == old(keys) && values == old(values)
    {
      keyCount, valueCount := 0, 0;
    }

    /** Add: append to both.  `spare` is what append allocates beyond need. */
    method Add(key: Bytes, value: Bytes, spare: nat)
      requires Valid()
      modifies this, keys, values
      ensures Valid() && (keys == old(keys) || fresh(keys)) && (values == old(values) || fresh(values))
      ensures Keys() == old(Keys()) + [key] && Values() == old(Values()) + [value]
    {
      var n := keyCount;
      if n == keys.Length {
        var k := new Bytes[n + 1 + spare](_ => []);
        var v := new Bytes[n + 1 + spare](_ => []);
        forall i | 0 <= i < n { k[i] := keys[i]; }
        forall i | 0 <= i < n { v[i] := values[i]; }
        keys, values := k, v;
      }
      keys[n], values[n] := key, value;
      keyCount, valueCount := n + 1, n + 1;
    }

    /** The filling of the parameters in Handle: writes over whatever the storage held. */
    method Fill(names: seq<Bytes>, pathValue: PathValue)
      requires Valid()
      modifies this, keys, values
      ensures Valid() && (keys == old(keys) || fresh(keys)) && (values == old(values) || fresh(values))
      ensures if names == [] then Keys() == old(Keys()) && Values() == old(Values())
              else Keys() == names && Values() == PathValues(names, pathValue)
    {
      var n := |names|;
      if n == 0 {
        return;
      }
      if keys.Length < n {
        keys, values := new Bytes[n](_ => []), new Bytes[n](_ => []);
      }
      keyCount, valueCount := n, n;
      for i := 0 to n
        invariant Valid() && keyCount == n
        invariant (keys == old(keys) || fresh(keys)) && (values == old(values) || fresh(values))
        invariant keys[..i] == names[..i] && values[..i] == PathValues(names, pathValue)[..i]
      {
        keys[i] := names[i];
        values[i] := pathValue(names[i]);
      }
    }

    method Get(key: Bytes) returns (value: Bytes)
      requires Valid()
      ensures value == Lookup(Keys(), Values(), key)
    {
      for i := 0 to keyCount
        invariant Lookup(Keys(), Values(), key) == Lookup(Keys()[i..], Values()[i..], key)
      {
        assert Keys()[i..][1..] == Keys()[i + 1..] && Values()[i..][1..] == Values()[i + 1..];
        if key == keys[i] {
          return values[i];
        }
      }
      return [];
    }

    method ToMap() returns (m: map<Bytes, Bytes>)
      requires Valid()
      ensures m == AsMap(Keys(), Values())
    {
      m := map[];
      for i := 0 to keyCount
        invariant m == AsMap(Keys()[..i], Values()[..i])
      {
        m := m[keys[i] := values[i]];
        assert Keys()[..i + 1][..i] == Keys()[..i] && Values()[..i + 1][..i] == Values()[..i];
      }
      assert Keys()[..keyCount] == Keys() && Values()[..keyCount] == Values();
    }
  }

  /** Get finds the first entry of a key. */
  lemma {:induction false} LookupIn(keys: seq<Bytes>, values: seq<Bytes>, key: Bytes) returns (i: nat)
    requires |keys| == |values|
    ensures i <= |keys| && forall j :: 0 <= j < i ==> keys[j] != key
    ensures i < |keys| ==> keys[i] == key
    ensures Lookup(keys, values, key) == if i < |keys| then values[i] else []
    decreases |keys|
  {
    i := 0;
    if keys != [] && keys[0] != key {
      var k := LookupIn(keys[1..], values[1..], key);
      i := k + 1;
      forall j | 0 <= j < i ensures keys[j] != key {
        assert j > 0 ==> keys[1..][j - 1] == keys[j];
      }
    }
  }

  /** ToMap keeps the last entry of a key. */
  lemma {:induction false} AsMapIn(keys: seq<Bytes>, values: seq<Bytes>, key: Bytes) returns (i: nat)
    requires |keys| == |values| && key in keys
    ensures i < |keys| && keys[i] == key && AsMap(keys, values)[key] == values[i]
    ensures forall j :: i < j < |keys| ==> keys[j] != key
    decreases |keys|
  {
    var n: nat := |keys| - 1;
    var k, v := keys[..n], values[..n];
    assert AsMap(keys, values) == AsMap(k, v)[keys[n] := values[n]];
    hide AsMap;
    i := n;
    if keys[n] != key {
      i := AsMapIn(k, v, key);
    }
  }

  /** Of the parameters that Handle fills in, Get and ToMap both give the wildcards of the matched pattern. */
  lemma {:induction false} FilledParams(names: seq<Bytes>, pathValue: PathValue, key: Bytes)
    ensures var vs := PathValues(names, pathValue);
            && Lookup(names, vs, key) == (if key in names then pathValue(key) else [])
            && (key in names ==> AsMap(names, vs)[key] == pathValue(key))
  {
    var vs := PathValues(names, pathValue);
    var first := LookupIn(names, vs, key);
    if key in names {
      var last := AsMapIn(names, vs, key);
    }
  }

  // ---------------------------------------------------------------------------------------------
  // Context

  datatype NextFn = BoundNext | OtherNext(id: nat)

  /** References are identities. */
  datatype Chain = Chain(request: Option<nat>, response: Option<nat>, committed: bool, id: Bytes, route: Bytes,
                         next: NextFn, handlers: seq<nat>, handlerIndex: int, activeTrace: Option<nat>)

  datatype Content = Content(statusCode: int, body: Option<nat>, bodyBuffer: Option<Bytes>, requestBody: Option<Bytes>,
                             realIP: Bytes, clientIP: Bytes, reuseDisabled: bool, cacheQuery: Option<nat>)

  /** All that handlers can learn from a Context; a nil map reads as empty. */
  datatype View = View(chain: Chain, content: Content, handlerNames: seq<Bytes>, paramKeys: seq<Bytes>,
                       paramValues: seq<Bytes>, store: map<Bytes, nat>)

  function Blank(): View {
    View(Chain(None, None, false, [], [], BoundNext, [], -1, None),
         Content(0, None, None, None, [], [], false, None), [], [], [], map[])
  }

  /** What the route function of Handle has at hand when it takes a Context. */
  datatype Start = Start(request: nat, response: nat, handlers: seq<nat>, id: Bytes, paramNames: seq<Bytes>,
                         pathValue: PathValue, route: Bytes, trace: Option<nat>, nameOf: nat -> Bytes)

  function Names(handlers: seq<nat>, nameOf: nat -> Bytes): (r: seq<Bytes>)
    ensures |r| == |handlers| && forall i :: 0 <= i < |handlers| ==> r[i] == nameOf(handlers[i])
  {
    seq(|handlers|, i requires 0 <= i < |handlers| => nameOf(handlers[i]))
  }

  /** The Context the first handler sees. */
  function Started(s: Start): View {
    Blank().(chain := Chain(Some(s.request), Some(s.response), false, s.id, s.route,
                            BoundNext, s.handlers, -1, s.trace),
             handlerNames := if s.trace.Some? then Names(s.handlers, s.nameOf) else [],
             paramKeys := s.paramNames, paramValues := PathValues(s.paramNames, s.pathValue))
  }

  /** What the first handler of a request is promised to see: the fields that the route function sets, from what it
      has at hand, and every other one empty. */
  ghost predicate AtStart(v: View, s: Start) {
    && v.chain.request == Some(s.request) && v.chain.response == Some(s.response) && !v.chain.committed
    && v.chain.id == s.id && v.chain.route == s.route
    && v.chain.next == BoundNext && v.chain.handlers == s.handlers && v.chain.handlerIndex == -1
    && v.chain.activeTrace == s.trace
    && v.content.statusCode == 0 && v.content.body == None && v.content.bodyBuffer == None
    && v.content.requestBody == None && v.content.realIP == [] && v.content.clientIP == []
    && !v.content.reuseDisabled && v.content.cacheQuery == None
    // a name for each handler, if the request is traced
    && |v.handlerNames| == (if s.trace.Some? then |s.handlers| else 0)
    && (forall k :: 0 <= k < |v.handlerNames| ==> v.handlerNames[k] == s.nameOf(s.handlers[k]))
    // the wildcards of the pattern
    && v.paramKeys == s.paramNames && |v.paramValues| == |s.paramNames|
    && (forall k :: 0 <= k < |s.paramNames| ==> v.paramValues[k] == s.pathValue(s.paramNames[k]))
    && v.store == map[]
  }

  lemma {:induction false} StartedIsAtStart(s: Start)
    ensures AtStart(Started(s), s)
  {
  }

  /** That leaves nothing open. */
  lemma {:induction false} AtStartIsOne(s: Start, v: View, w: View)
    requires AtStart(v, s) && AtStart(w, s)
    ensures v == w
  {
    assert v.handlerNames == w.handlerNames && v.paramValues == w.paramValues;
  }

  class Context {
    var request: Option<nat>
    var response: Option<nat>
    var committed: bool
    var id: Bytes
    var route: Bytes
    var next: NextFn
    var handlers: seq<nat>
    var handlerIndex: int
    var handlerNames: seq<Bytes>
    var activeTrace: Option<nat>
    const params: RouteParams
    var statusCode: int
    var body: Option<nat>
    var bodyBuffer: Option<Bytes>
    var requestBody: Option<Bytes>
    var store: Option<map<Bytes, nat>>
    var realIP: Bytes
    var clientIP: Bytes
    var reuseDisabled: bool
    var cacheQuery: Option<nat>

    ghost predicate Valid()
      reads params
    {
      params.Valid()
    }

    ghost function ChainPart(): Chain
      reads `request, `response, `committed, `id, `route, `next, `handlers, `handlerIndex, `activeTrace
    {
      Chain(request, response, committed, id, route, next, handlers, handlerIndex, activeTrace)
    }

    ghost function ContentPart(): Content
      reads `statusCode, `body, `bodyBuffer, `requestBody, `realIP, `clientIP, `reuseDisabled, `cacheQuery
    {
      Content(statusCode, body, bodyBuffer, requestBody, realIP, clientIP, reuseDisabled, cacheQuery)
    }

    ghost function Abs(): View
      reads this, params, params.keys, params.values
      requires Valid()
    {
      View(ChainPart(), ContentPart(), handlerNames, params.Keys(), params.Values(), store.GetOr(map[]))
    }

    /** The pool's New. */
    constructor ()
      ensures Valid() && Abs() == Blank()
    {
      params := new RouteParams();
      request, response, committed, id, route, next := None, None, false, [], [], BoundNext;
      handlers, handlerIndex, activeTrace := [], -1, None;
      statusCode, body, bodyBuffer, requestBody, store := 0, None, None, None, None;
      realIP, clientIP, reuseDisabled, cacheQuery := [], [], false, None;
      handlerNames := [];
    }

    /** Whatever the previous request left, nothing of it can be seen. */
    method Reset()
      requires Valid()
      modifies this, params
      ensures Valid() && ChainPart() == Blank().chain && ContentPart() == Blank().content
      ensures handlerNames == [] && params.Keys() == [] && params.Values() == [] && store.GetOr(map[]) == map[]
      ensures params.keys == old(params.keys) && params.values == old(params.values)
    {
      ResetChain();
      handlerNames := [];
      params.Reset();
      ResetContent();
      if store.Some? {
        store := Some(map[]);
      }
    }

    method ResetChain()
      modifies `request, `response, `committed, `id, `route, `next, `handlers, `handlerIndex, `activeTrace
      ensures ChainPart() == Blank().chain
    {
      request := None;
      response := None;
      committed := false;
      id := [];
      route := [];
      next := BoundNext;
      handlers := [];
      handlerIndex := -1;
      activeTrace := None;
    }

    method ResetContent()
      modifies `statusCode, `body, `bodyBuffer, `requestBody, `realIP, `clientIP, `reuseDisabled, `cacheQuery
      ensures ContentPart() == Blank().content
    {
      statusCode := 0;
      body := None;
      bodyBuffer := None;
      requestBody := None;
      realIP := [];
      clientIP := [];
      reuseDisabled := false;
      cacheQuery := None;
    }

    /** The beginning of the route function of Handle, on a Context from the pool: the first handler sees what
        it would see on a new one. */
    method Begin(s: Start)
      requires Valid()
      modifies this, params, params.keys, params.values
      ensures Valid() && AtStart(Abs(), s)
      ensures Abs() == Started(s)
    {
      StartedIsAtStart(s);
      hide AtStart;
      Reset();
      FillParams(s);
      BeginChain(s);
      if s.trace.Some? {
        FillNames(s.nameOf);
      }
    }

    method FillParams(s: Start)
      requires Valid() && params.Keys() == [] && params.Values() == []
      modifies params, params.keys, params.values
      ensures Valid() && params.Keys() == s.paramNames && params.Values() == PathValues(s.paramNames, s.pathValue)
    {
      params.Fill(s.paramNames, s.pathValue);
    }

    method BeginChain(s: Start)
      requires ChainPart() == Blank().chain
      modifies `request, `response, `id, `route, `handlers, `handlerIndex, `activeTrace
      ensures ChainPart() == Started(s).chain
    {
      request := Some(s.request);
      response := Some(s.response);
      handlers := s.handlers;
      handlerIndex := -1;
      id := s.id;
      route := s.route;
      if s.trace.Some? {
        activeTrace := s.trace;
      }
    }

    /** What a handler reads. */
    method Observe() returns (v: View)
      requires Valid()
      ensures v == Abs()
    {
      v := View(Chain(request, response, committed, id, route, next, handlers, handlerIndex, activeTrace),
                Content(statusCode, body, bodyBuffer, requestBody, realIP, clientIP, reuseDisabled, cacheQuery),
                handlerNames, params.keys[..params.keyCount], params.values[..params.valueCount], store.GetOr(map[]));
    }

    method FillNames(nameOf: nat -> Bytes)
      modifies `handlerNames
      ensures handlerNames == Names(handlers, nameOf)
    {
      handlerNames := [];
      for i := 0 to |handlers|
        invariant handlerNames == Names(handlers, nameOf)[..i]
      {
        handlerNames := handlerNames + [nameOf(handlers[i])];
      }
    }
  }
}
