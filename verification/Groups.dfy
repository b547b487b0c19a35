/** Registering routes, alone and in groups (elton.go): what each route's fixed chain of handlers is. */
module Groups {
  import opened Text
  import opened RoutePath

  /** The identity of a handler function. */
  type Handler = nat

  datatype Route = Route(verb: Bytes, path: Bytes, handlers: seq<Handler>)

  // ---------------------------------------------------------------------------------------------
  // What a program declares: each group with what was written at it alone

  datatype Decl = Decl(parent: Option<nat>, path: Bytes, handlers: seq<Handler>, items: seq<Route>, children: seq<nat>)

  /** Groups are numbered as they are created, and the child of a group is created through it. */
  ghost predicate WellFormed(ds: seq<Decl>) {
    forall i: nat :: i < |ds| ==> DeclOk(ds, i)
  }

  ghost predicate DeclOk(ds: seq<Decl>, i: nat)
    requires i < |ds|
  {
    && (ds[i].parent.Some? ==> ds[i].parent.value < i && i in ds[ds[i].parent.value].children)
    && (forall c <- ds[i].children :: Child(ds, i, c))
    && forall j, k :: 0 <= j < k < |ds[i].children| ==> ds[i].children[j] != ds[i].children[k]
  }

  predicate Child(ds: seq<Decl>, i: nat, c: nat) {
    i < c < |ds| && ds[c].parent == Some(i)
  }

  /** The paths of the ancestors and its own, from the root. */
  ghost function FullPath(ds: seq<Decl>, i: nat): Bytes
    requires WellFormed(ds) && i < |ds|
    decreases i
  {
    assert DeclOk(ds, i);
    (if ds[i].parent.Some? then FullPath(ds, ds[i].parent.value) else []) + ds[i].path
  }

  ghost function FullHandlers(ds: seq<Decl>, i: nat): seq<Handler>
    requires WellFormed(ds) && i < |ds|
    decreases i
  {
    assert DeclOk(ds, i);
    (if ds[i].parent.Some? then FullHandlers(ds, ds[i].parent.value) else []) + ds[i].handlers
  }

  /** A root, a group in it, a group in that one, and so on. */
  predicate Lineage(ds: seq<Decl>, line: seq<nat>) {
    && line != [] && (forall k :: 0 <= k < |line| ==> line[k] < |ds|)
    && ds[line[0]].parent == None
    && forall j, k :: 0 <= j < |line| && k == j + 1 && k < |line| ==> ds[line[k]].parent == Some(line[j])
  }

  function Concat<T>(parts: seq<seq<T>>): seq<T> {
    if parts == [] then [] else parts[0] + Concat(parts[1..])
  }

  lemma {:induction false} ConcatOneMore<T>(parts: seq<seq<T>>, last: seq<T>)
    ensures Concat(parts + [last]) == Concat(parts) + last
    decreases |parts|
  {
    if parts == [] {
      assert ([last])[1..] == [] && parts + [last] == [last];
    } else {
      ConcatOneMore(parts[1..], last);
      assert (parts + [last])[1..] == parts[1..] + [last];
    }
  }

  /** Path and handlers of a group: those written at the root first, its own last. */
  lemma {:induction false} FromTheRoot(ds: seq<Decl>, line: seq<nat>)
    requires WellFormed(ds) && Lineage(ds, line)
    ensures var last := line[|line| - 1];
            && FullPath(ds, last) == Concat(seq(|line|, k requires 0 <= k < |line| => ds[line[k]].path))
            && FullHandlers(ds, last) == Concat(seq(|line|, k requires 0 <= k < |line| => ds[line[k]].handlers))
    decreases |line|
  {
    var n: nat := |line| - 1;
    var last, above := line[n], line[..n];
    var paths := seq(|line|, k requires 0 <= k < |line| => ds[line[k]].path);
    var handlers := seq(|line|, k requires 0 <= k < |line| => ds[line[k]].handlers);
    assert paths == paths[..n] + [ds[last].path] && handlers == handlers[..n] + [ds[last].handlers];
    ConcatOneMore(paths[..n], ds[last].path);
    ConcatOneMore(handlers[..n], ds[last].handlers);
    assert DeclOk(ds, last);
    if n > 0 {
      FromTheRoot(ds, above);
      assert paths[..n] == seq(n, k requires 0 <= k < n => ds[above[k]].path);
      assert handlers[..n] == seq(n, k requires 0 <= k < n => ds[above[k]].handlers);
      assert ds[line[n]].parent == Some(line[n - 1]);
    }
  }

  ghost function Entry(ds: seq<Decl>, i: nat, item: Route): Route
    requires WellFormed(ds) && i < |ds|
  {
    Route(item.verb, FullPath(ds, i) + item.path, FullHandlers(ds, i) + item.handlers)
  }

  ghost function Entries(ds: seq<Decl>, i: nat): (es: seq<Route>)
    requires WellFormed(ds) && i < |ds|
    ensures |es| == |ds[i].items| && forall k :: 0 <= k < |es| ==> es[k] == Entry(ds, i, ds[i].items[k])
  {
    seq(|ds[i].items|, k requires 0 <= k < |ds[i].items| => Entry(ds, i, ds[i].items[k]))
  }

  predicate AllFrom(ds: seq<Decl>, low: nat, gs: seq<nat>) {
    forall k :: 0 <= k < |gs| ==> low <= gs[k] < |ds|
  }

  /** The groups gs (none below `low`) and all groups in them, a group before those in it. */
  ghost function Preorder(ds: seq<Decl>, low: nat, gs: seq<nat>): (r: seq<nat>)
    requires WellFormed(ds) && AllFrom(ds, low, gs) && low <= |ds|
    ensures AllFrom(ds, low, r)
    decreases |ds| - low, |gs| + 1
  {
    if gs == [] then [] else Subtree(ds, gs[0]) + Preorder(ds, low, gs[1..])
  }

  ghost function Subtree(ds: seq<Decl>, i: nat): (r: seq<nat>)
    requires WellFormed(ds) && i < |ds|
    ensures AllFrom(ds, i, r)
    decreases |ds| - i, 0
  {
    ChildrenAfter(ds, i);
    var after := i + 1;
    [i] + Preorder(ds, after, ds[i].children)
  }

  lemma {:induction false} ChildrenAfter(ds: seq<Decl>, i: nat)
    requires WellFormed(ds) && i < |ds|
    ensures AllFrom(ds, i + 1, ds[i].children)
  {
    assert DeclOk(ds, i);
    forall k | 0 <= k < |ds[i].children| ensures i + 1 <= ds[i].children[k] < |ds| {
      assert Child(ds, i, ds[i].children[k]);
    }
  }

  ghost function AllEntries(ds: seq<Decl>, gs: seq<nat>): seq<Route>
    requires WellFormed(ds) && AllFrom(ds, 0, gs)
    decreases |gs|
  {
    if gs == [] then [] else Entries(ds, gs[0]) + AllEntries(ds, gs[1..])
  }

  lemma {:induction false} AllEntriesConcat(ds: seq<Decl>, a: seq<nat>, b: seq<nat>)
    requires WellFormed(ds) && AllFrom(ds, 0, a) && AllFrom(ds, 0, b)
    ensures AllFrom(ds, 0, a + b) && AllEntries(ds, a + b) == AllEntries(ds, a) + AllEntries(ds, b)
    decreases |a|
  {
    hide WellFormed, Entries;
    if a == [] {
      assert a + b == b;
    } else {
      var rest := a[1..];
      assert (a + b)[1..] == rest + b;
      var e := Entries(ds, a[0]);
      assert AllEntries(ds, a) == e + AllEntries(ds, rest);
      assert AllEntries(ds, a + b) == e + AllEntries(ds, rest + b);
      hide AllEntries;
      AllEntriesConcat(ds, rest, b);
      Regroup(e, AllEntries(ds, rest), AllEntries(ds, b));
    }
  }

  lemma {:induction false} Regroup<T>(a: seq<T>, b: seq<T>, c: seq<T>)
    ensures a + (b + c) == a + b + c
  {
  }

  lemma {:induction false} Append3<T>(s: seq<T>, a: seq<T>, b: seq<T>, c: seq<T>)
    ensures s + a + b + c == s + (a + b + c)
  {
  }

  // ---------------------------------------------------------------------------------------------
  // Group

  class Group {
    var path: Bytes
    var handlerList: seq<Handler>
    var routers: seq<Route>
    var children: seq<Group>

    constructor (path: Bytes, handlerList: seq<Handler>)
      ensures this.path == path && this.handlerList == handlerList && routers == [] && children == []
    {
      this.path, this.handlerList, routers, children := path, handlerList, [], [];
    }

    function Merge(s2: seq<Handler>): seq<Handler>
      reads this
    {
      handlerList + s2
    }

    /** Group.NewGroup, on group i of those declared so far. */
    method NewGroup(path: Bytes, handlerList: seq<Handler>, ghost arena: seq<Group>, ghost ds: seq<Decl>, ghost i: nat)
        returns (child: Group)
      requires Represents(arena, ds) && i < |arena| && arena[i] == this
      modifies this
      ensures fresh(child) && child.path == this.path + path && child.handlerList == this.handlerList + handlerList
      ensures child.routers == [] && child.children == [] && children == old(children) + [child]
      ensures this.path == old(this.path) && this.handlerList == old(this.handlerList) && routers == old(routers)
      ensures Represents(arena + [child], WithChild(ds, i, path, handlerList))
    {
      child := new Group(this.path + path, Merge(handlerList));
      children := children + [child];
      WithChildKeeps(ds, i, path, handlerList);
      hide WellFormed, FullPath, FullHandlers, Entries;
      forall k | 0 <= k < |ds| + 1
        ensures Node((arena + [child])[k], arena + [child], WithChild(ds, i, path, handlerList), k)
      {
        if k < |ds| {
          assert old(Node(arena[k], arena, ds, k));
        }
      }
    }

    /** Group.handle */
    method Handle(verb: Bytes, path: Bytes, handlerList: seq<Handler>, ghost arena: seq<Group>, ghost ds: seq<Decl>,
                  ghost i: nat)
      requires Represents(arena, ds) && i < |arena| && arena[i] == this
      modifies this
      ensures routers == old(routers) + [Route(verb, this.path + path, this.handlerList + handlerList)]
      ensures this.path == old(this.path) && this.handlerList == old(this.handlerList) && children == old(children)
      ensures Represents(arena, WithItem(ds, i, Route(verb, path, handlerList)))
    {
      routers := routers + [Route(verb, this.path + path, Merge(handlerList))];
      WithItemKeeps(ds, i, Route(verb, path, handlerList));
      forall k | 0 <= k < |ds| ensures Node(arena[k], arena, WithItem(ds, i, Route(verb, path, handlerList)), k) {
        assert old(Node(arena[k], arena, ds, k));
      }
    }
  }

  function WithItem(ds: seq<Decl>, i: nat, item: Route): seq<Decl>
    requires i < |ds|
  {
    ds[i := ds[i].(items := ds[i].items + [item])]
  }

  function WithChild(ds: seq<Decl>, i: nat, path: Bytes, handlers: seq<Handler>): seq<Decl>
    requires i < |ds|
  {
    ds[i := ds[i].(children := ds[i].children + [|ds|])] + [Decl(Some(i), path, handlers, [], [])]
  }

  function WithRoot(ds: seq<Decl>, path: Bytes, handlers: seq<Handler>): seq<Decl> {
    ds + [Decl(None, path, handlers, [], [])]
  }

  /** Group object g is group i: everything merged into it when it was made. */
  ghost predicate Node(g: Group, arena: seq<Group>, ds: seq<Decl>, i: nat)
    requires WellFormed(ds) && i < |ds| == |arena|
    reads g
  {
    && g.path == FullPath(ds, i) && g.handlerList == FullHandlers(ds, i) && g.routers == Entries(ds, i)
    && |g.children| == |ds[i].children|
    && forall k :: 0 <= k < |ds[i].children| ==> ds[i].children[k] < |ds| && g.children[k] == arena[ds[i].children[k]]
  }

  ghost predicate Represents(arena: seq<Group>, ds: seq<Decl>)
    reads arena
  {
    && WellFormed(ds) && |arena| == |ds|
    && (forall i, j :: 0 <= i < j < |arena| ==> arena[i] != arena[j])
    && forall i: nat :: i < |ds| ==> Node(arena[i], arena, ds, i)
  }

  /** es declares what ds does, and perhaps more. */
  predicate Extends(ds: seq<Decl>, es: seq<Decl>) {
    |ds| <= |es| && forall i :: 0 <= i < |ds| ==>
      es[i].parent == ds[i].parent && es[i].path == ds[i].path && es[i].handlers == ds[i].handlers
  }

  lemma {:induction false} SameAncestors(ds: seq<Decl>, es: seq<Decl>, i: nat)
    requires WellFormed(ds) && WellFormed(es) && Extends(ds, es) && i < |ds|
    ensures FullPath(es, i) == FullPath(ds, i) && FullHandlers(es, i) == FullHandlers(ds, i)
    ensures ds[i].items == es[i].items ==> Entries(es, i) == Entries(ds, i)
    decreases i
  {
    assert DeclOk(ds, i);
    if ds[i].parent.Some? {
      SameAncestors(ds, es, ds[i].parent.value);
    }
  }

  lemma {:induction false} WithItemKeeps(ds: seq<Decl>, i: nat, item: Route)
    requires WellFormed(ds) && i < |ds|
    ensures var es := WithItem(ds, i, item);
            && WellFormed(es)
            && Entries(es, i) == Entries(ds, i) + [Entry(ds, i, item)]
            && forall k: nat :: k < |ds| ==> SameNode(ds, es, k) && (k != i ==> Entries(es, k) == Entries(ds, k))
  {
    var es := WithItem(ds, i, item);
    forall k: nat | k < |es| ensures DeclOk(es, k) {
      assert DeclOk(ds, k);
      assert es[k].children == ds[k].children;
      forall c <- es[k].children ensures Child(es, k, c) {
        assert Child(ds, k, c);
      }
      if ds[k].parent.Some? {
        assert es[ds[k].parent.value].children == ds[ds[k].parent.value].children;
      }
    }
    forall k: nat | k < |ds| ensures SameNode(ds, es, k) && (k != i ==> Entries(es, k) == Entries(ds, k)) {
      SameAncestors(ds, es, k);
    }
  }

  ghost predicate SameNode(ds: seq<Decl>, es: seq<Decl>, k: nat)
    requires WellFormed(ds) && WellFormed(es) && k < |ds| && k < |es|
  {
    FullPath(es, k) == FullPath(ds, k) && FullHandlers(es, k) == FullHandlers(ds, k)
  }

  lemma {:induction false} WithChildWellFormed(ds: seq<Decl>, i: nat, path: Bytes, handlers: seq<Handler>)
    requires WellFormed(ds) && i < |ds|
    ensures WellFormed(WithChild(ds, i, path, handlers))
  {
    var es := WithChild(ds, i, path, handlers);
    forall k: nat | k < |es| ensures DeclOk(es, k) {
      if k < |ds| {
        assert DeclOk(ds, k);
        forall c <- es[k].children ensures Child(es, k, c) {
          assert c != |ds| ==> c in ds[k].children && Child(ds, k, c);
        }
        forall j | 0 <= j < |ds[k].children| ensures ds[k].children[j] < |ds| {
          assert Child(ds, k, ds[k].children[j]);
        }
        if ds[k].parent.Some? {
          assert k in es[ds[k].parent.value].children;
        }
      } else {
        assert es[i].children[|ds[i].children|] == |ds|;
      }
    }
  }

  lemma {:induction false} WithChildKeeps(ds: seq<Decl>, i: nat, path: Bytes, handlers: seq<Handler>)
    requires WellFormed(ds) && i < |ds|
    ensures var es := WithChild(ds, i, path, handlers);
            && WellFormed(es)
            && FullPath(es, |ds|) == FullPath(ds, i) + path && FullHandlers(es, |ds|) == FullHandlers(ds, i) + handlers
            && Entries(es, |ds|) == []
            && forall k: nat :: k < |ds| ==> SameNode(ds, es, k) && Entries(es, k) == Entries(ds, k)
  {
    var es := WithChild(ds, i, path, handlers);
    WithChildWellFormed(ds, i, path, handlers);
    SameAncestors(ds, es, i);
    forall k: nat | k < |ds| ensures SameNode(ds, es, k) && Entries(es, k) == Entries(ds, k) {
      SameAncestors(ds, es, k);
    }
  }

  lemma {:induction false} WithRootKeeps(ds: seq<Decl>, path: Bytes, handlers: seq<Handler>)
    requires WellFormed(ds)
    ensures var es := WithRoot(ds, path, handlers);
            && WellFormed(es)
            && FullPath(es, |ds|) == path && FullHandlers(es, |ds|) == handlers && Entries(es, |ds|) == []
            && forall k: nat :: k < |ds| ==> SameNode(ds, es, k) && Entries(es, k) == Entries(ds, k)
  {
    var es := WithRoot(ds, path, handlers);
    forall k: nat | k < |es| ensures DeclOk(es, k) {
      if k < |ds| {
        assert DeclOk(ds, k);
        assert forall c <- ds[k].children :: Child(ds, k, c) && Child(es, k, c);
      }
    }
    forall k: nat | k < |ds| ensures SameNode(ds, es, k) && Entries(es, k) == Entries(ds, k) {
      SameAncestors(ds, es, k);
    }
  }

  /** The function NewGroup. */
  method NewGroup(path: Bytes, handlerList: seq<Handler>, ghost arena: seq<Group>, ghost ds: seq<Decl>)
      returns (g: Group)
    requires Represents(arena, ds)
    ensures fresh(g) && g.path == path && g.handlerList == handlerList && g.routers == [] && g.children == []
    ensures Represents(arena + [g], WithRoot(ds, path, handlerList))
  {
    g := new Group(path, handlerList);
    WithRootKeeps(ds, path, handlerList);
    forall k: nat | k < |ds| + 1 ensures Node((arena + [g])[k], arena + [g], WithRoot(ds, path, handlerList), k) {
      if k < |ds| {
        assert Node(arena[k], arena, ds, k);
      }
    }
  }

  // ---------------------------------------------------------------------------------------------
  // Elton

  /** What Elton keeps of a route: its own slice of handlers. */
  datatype Registered = Registered(verb: Bytes, path: Bytes, handlers: array<Handler>)

  function OnTop(middlewares: seq<Handler>, r: Route): Route {
    Route(r.verb, Normalize(r.path), middlewares + r.handlers)
  }

  function AllOnTop(middlewares: seq<Handler>, rs: seq<Route>): seq<Route> {
    seq(|rs|, k requires 0 <= k < |rs| => OnTop(middlewares, rs[k]))
  }

  class Elton {
    /** The slice of global middlewares: `used` entries of its storage. */
    var middlewares: array<Handler>
    var used: nat
    var routers: seq<Registered>

    /** No route shares storage with the global middlewares. */
    ghost predicate Valid()
      reads this
    {
      used <= middlewares.Length && forall r <- routers :: r.handlers != middlewares
    }

    ghost function Middlewares(): seq<Handler>
      reads this, middlewares
      requires Valid()
    {
      middlewares[..used]
    }

    /** The routes as a request will find them. */
    ghost function Routes(): seq<Route>
      reads this, set r <- routers :: r.handlers
    {
      seq(|routers|, k requires 0 <= k < |routers| reads this, set r <- routers :: r.handlers =>
        Route(routers[k].verb, routers[k].path, routers[k].handlers[..]))
    }

    constructor ()
      ensures Valid() && Middlewares() == [] && Routes() == [] && fresh(middlewares)
    {
      middlewares, used, routers := new Handler[0](_ => 0), 0, [];
    }

    /** Use: append, in place while there is room; `spare` is what append allocates beyond need. */
    method Use(handlerList: seq<Handler>, spare: nat)
      requires Valid()
      modifies this, middlewares
      ensures Valid() && (middlewares == old(middlewares) || fresh(middlewares)) && routers == old(routers)
      ensures Middlewares() == old(Middlewares()) + handlerList
      ensures Routes() == old(Routes())
    {
      var n := used + |handlerList|;
      if n > middlewares.Length {
        var a := new Handler[n + spare](_ => 0);
        forall k | 0 <= k < used { a[k] := middlewares[k]; }
        middlewares := a;
      }
      forall k | 0 <= k < |handlerList| { middlewares[used + k] := handlerList[k]; }
      used := n;
      forall k | 0 <= k < |routers| ensures Routes()[k] == old(Routes()[k]) {
        assert routers[k] in routers && routers[k].handlers != old(middlewares);
      }
    }

    /** Handle: the route gets a copy of the middlewares of the moment, followed by its own handlers. */
    method Handle(verb: Bytes, path: Bytes, handlerList: seq<Handler>)
      requires Valid()
      modifies `routers
      ensures Valid()
      ensures Routes() == old(Routes()) + [Route(verb, Normalize(path), Middlewares() + handlerList)]
    {
      var p := NormalizeRoutePath(path);
      var m := used;
      var handlers := new Handler[m + |handlerList|](_ => 0);
      forall k | 0 <= k < m { handlers[k] := middlewares[k]; }
      forall k | 0 <= k < |handlerList| { handlers[m + k] := handlerList[k]; }
      assert handlers[..] == middlewares[..m] + handlerList;
      routers := routers + [Registered(verb, p, handlers)];
      forall k | 0 <= k < |old(routers)| ensures Routes()[k] == old(Routes()[k]) {
        assert routers[k] == old(routers)[k];
      }
    }

    /** AddGroup: every entry of every group, the groups in preorder. */
    method AddGroup(groups: seq<Group>, ghost arena: seq<Group>, ghost ds: seq<Decl>, ghost low: nat,
                    ghost gs: seq<nat>)
      requires Valid() && Represents(arena, ds) && low <= |ds| && AllFrom(ds, low, gs) && |groups| == |gs|
      requires forall k :: 0 <= k < |gs| ==> groups[k] == arena[gs[k]]
      modifies `routers
      ensures Valid()
      ensures Added(old(Routes()), Routes(), Middlewares(), ds, Declared(ds, Preorder(ds, low, gs)))
      ensures Routes() == old(Routes()) + AllOnTop(Middlewares(), EntriesIn(ds, low, gs))
      decreases |ds| - low
    {
      ghost var m, before := Middlewares(), Routes();
      assert WellFormed(ds) && |arena| == |ds|;
      EntriesInNone(ds, low, m);
      hide Routes, AllOnTop, EntriesIn, Entries, WellFormed, Represents, Added, Declared, Preorder;
      assert gs[..0] == [];
      for k := 0 to |groups|
        invariant Valid() && Middlewares() == m && Represents(arena, ds)
        invariant Routes() == before + AllOnTop(m, EntriesIn(ds, low, gs[..k]))
      {
        var g := groups[k];
        ghost var i := gs[k];
        NodeOf(arena, ds, i);
        ChildrenAfter(ds, i);
        AddEntries(g.routers);
        AddGroup(g.children, arena, ds, i + 1, ds[i].children);
        EntriesInStep(ds, low, gs, k, m);
        Append3(before, AllOnTop(m, EntriesIn(ds, low, gs[..k])), AllOnTop(m, Entries(ds, i)),
                AllOnTop(m, EntriesIn(ds, i + 1, ds[i].children)));
      }
      assert gs[..|gs|] == gs;
      AddedRoutes(ds, low, gs, m, before, Routes());
    }

    method AddEntries(entries: seq<Route>)
      requires Valid()
      modifies `routers
      ensures Valid()
      ensures Routes() == old(Routes()) + AllOnTop(Middlewares(), entries)
    {
      hide OnTop, AllOnTop, Routes;
      AllOnTopStep(Middlewares(), entries, 0);
      for k := 0 to |entries|
        invariant Valid()
        invariant Routes() == old(Routes()) + AllOnTop(Middlewares(), entries[..k])
      {
        OnTopIs(Middlewares(), entries[k]);
        Handle(entries[k].verb, entries[k].path, entries[k].handlers);
        AllOnTopStep(Middlewares(), entries, k + 1);
      }
      assert entries[..|entries|] == entries;
    }
  }

  /** The entries of these groups, each with its group, as they were written. */
  ghost function Declared(ds: seq<Decl>, gs: seq<nat>): seq<(nat, Route)>
    requires AllFrom(ds, 0, gs)
    decreases |gs|
  {
    if gs == [] then []
    else
      var i := gs[0];
      seq(|ds[i].items|, k requires 0 <= k < |ds[i].items| => (i, ds[i].items[k])) + Declared(ds, gs[1..])
  }

  /** The routes `after` are those before and, for each of these entries in turn, one with the middlewares, the
      handlers of the group from the root on, and those of the entry, under the path of the group and the entry. */
  ghost predicate Added(before: seq<Route>, after: seq<Route>, middlewares: seq<Handler>, ds: seq<Decl>,
                        items: seq<(nat, Route)>)
    requires WellFormed(ds)
  {
    var n := |before|;
    && |after| == n + |items| && after[..n] == before
    && forall p :: 0 <= p < |items| ==>
         var (i, item) := items[p];
         && i < |ds|
         && after[n + p].verb == item.verb
         && after[n + p].path == Normalize(FullPath(ds, i) + item.path)
         && after[n + p].handlers == middlewares + FullHandlers(ds, i) + item.handlers
  }

  /** Each of them as it is registered. */
  lemma {:induction false} AddedInOrder(ds: seq<Decl>, order: seq<nat>, m: seq<Handler>, before: seq<Route>)
    requires WellFormed(ds) && AllFrom(ds, 0, order)
    ensures Added(before, before + AllOnTop(m, AllEntries(ds, order)), m, ds, Declared(ds, order))
  {
    hide *;
    var n, items, routes := |before|, Declared(ds, order), AllOnTop(m, AllEntries(ds, order));
    var after := before + routes;
    assert |routes| == |items| by { DeclaredEntry(ds, order, 0); AllOnTopLength(m, AllEntries(ds, order)); }
    forall p | 0 <= p < |items|
      ensures items[p].0 < |ds|
      ensures after[n + p] == Route(items[p].1.verb, Normalize(FullPath(ds, items[p].0) + items[p].1.path),
                                    m + FullHandlers(ds, items[p].0) + items[p].1.handlers)
    {
      AddedAt(ds, order, m, p);
      assert after[n + p] == routes[p];
    }
    assert after[..n] == before;
    AddedIs(before, after, m, ds, items);
  }

  lemma {:induction false} AddedIs(before: seq<Route>, after: seq<Route>, m: seq<Handler>, ds: seq<Decl>,
                                   items: seq<(nat, Route)>)
    requires WellFormed(ds) && |after| == |before| + |items| && after[..|before|] == before
    requires forall p :: 0 <= p < |items| ==>
               items[p].0 < |ds| &&
               after[|before| + p] == Route(items[p].1.verb, Normalize(FullPath(ds, items[p].0) + items[p].1.path),
                                            m + FullHandlers(ds, items[p].0) + items[p].1.handlers)
    ensures Added(before, after, m, ds, items)
  {
    hide WellFormed, FullPath, FullHandlers, Normalize;
  }

  lemma {:induction false} AllOnTopLength(m: seq<Handler>, rs: seq<Route>)
    ensures |AllOnTop(m, rs)| == |rs|
  {
  }

  lemma {:induction false} AddedRoutes(ds: seq<Decl>, low: nat, gs: seq<nat>, m: seq<Handler>, before: seq<Route>,
                                       after: seq<Route>)
    requires WellFormed(ds) && low <= |ds| && AllFrom(ds, low, gs)
    requires after == before + AllOnTop(m, EntriesIn(ds, low, gs))
    ensures Added(before, after, m, ds, Declared(ds, Preorder(ds, low, gs)))
  {
    hide WellFormed, Preorder, Declared, AllEntries, AllOnTop, Added;
    AddedInOrder(ds, Preorder(ds, low, gs), m, before);
  }

  lemma {:induction false} AddedAt(ds: seq<Decl>, order: seq<nat>, m: seq<Handler>, p: nat)
    requires WellFormed(ds) && AllFrom(ds, 0, order) && p < |Declared(ds, order)|
    ensures |AllOnTop(m, AllEntries(ds, order))| == |Declared(ds, order)|
    ensures var (i, item) := Declared(ds, order)[p];
            i < |ds| && AllOnTop(m, AllEntries(ds, order))[p] ==
                        Route(item.verb, Normalize(FullPath(ds, i) + item.path),
                              m + FullHandlers(ds, i) + item.handlers)
  {
    DeclaredEntry(ds, order, p);
    hide Declared, AllEntries, WellFormed, FullPath, FullHandlers, Normalize;
    var (i, item) := Declared(ds, order)[p];
    Regroup(m, FullHandlers(ds, i), item.handlers);
  }

  lemma {:induction false} OnTopIs(m: seq<Handler>, r: Route)
    ensures OnTop(m, r) == Route(r.verb, Normalize(r.path), m + r.handlers)
  {
  }

  lemma {:induction false} DeclaredEntry(ds: seq<Decl>, gs: seq<nat>, p: nat)
    requires WellFormed(ds) && AllFrom(ds, 0, gs)
    ensures |AllEntries(ds, gs)| == |Declared(ds, gs)|
    ensures p < |Declared(ds, gs)| ==>
              var (i, item) := Declared(ds, gs)[p]; i < |ds| && AllEntries(ds, gs)[p] == Entry(ds, i, item)
    decreases |gs|
  {
    hide WellFormed, Entry;
    if gs != [] {
      var n := |ds[gs[0]].items|;
      var q: nat := if p < n then 0 else p - n;
      DeclaredEntry(ds, gs[1..], q);
    }
  }

  lemma {:induction false} NodeOf(arena: seq<Group>, ds: seq<Decl>, i: nat)
    requires Represents(arena, ds) && i < |arena|
    ensures WellFormed(ds) && |arena| == |ds| && Node(arena[i], arena, ds, i)
  {
  }

  lemma {:induction false} AllOnTopStep(m: seq<Handler>, rs: seq<Route>, k: nat)
    requires k <= |rs|
    ensures AllOnTop(m, rs[..k]) == if k == 0 then [] else AllOnTop(m, rs[..k - 1]) + [OnTop(m, rs[k - 1])]
  {
    hide OnTop;
  }

  lemma {:induction false} AllOnTopConcat(m: seq<Handler>, a: seq<Route>, b: seq<Route>, c: seq<Route>)
    ensures AllOnTop(m, a + b + c) == AllOnTop(m, a) + AllOnTop(m, b) + AllOnTop(m, c)
  {
    hide OnTop;
  }

  ghost function EntriesIn(ds: seq<Decl>, low: nat, gs: seq<nat>): seq<Route>
    requires WellFormed(ds) && low <= |ds| && AllFrom(ds, low, gs)
  {
    AllEntries(ds, Preorder(ds, low, gs))
  }

  lemma {:induction false} EntriesInNone(ds: seq<Decl>, low: nat, m: seq<Handler>)
    requires WellFormed(ds) && low <= |ds|
    ensures AllOnTop(m, EntriesIn(ds, low, [])) == []
  {
  }

  lemma {:induction false} PreorderConcat(ds: seq<Decl>, low: nat, a: seq<nat>, b: seq<nat>)
    requires WellFormed(ds) && low <= |ds| && AllFrom(ds, low, a) && AllFrom(ds, low, b)
    ensures Preorder(ds, low, a + b) == Preorder(ds, low, a) + Preorder(ds, low, b)
    decreases |a|
  {
    hide WellFormed, Subtree;
    if a == [] {
      assert a + b == b;
    } else {
      var rest := a[1..];
      assert (a + b)[1..] == rest + b;
      var head := Subtree(ds, a[0]);
      assert Preorder(ds, low, a) == head + Preorder(ds, low, rest);
      assert Preorder(ds, low, a + b) == head + Preorder(ds, low, rest + b);
      hide Preorder;
      PreorderConcat(ds, low, rest, b);
      Regroup(head, Preorder(ds, low, rest), Preorder(ds, low, b));
    }
  }

  lemma {:induction false} EntriesInStep(ds: seq<Decl>, low: nat, gs: seq<nat>, k: nat, m: seq<Handler>)
    requires WellFormed(ds) && low <= |ds| && AllFrom(ds, low, gs) && k < |gs|
    ensures var after := gs[k] + 1;
            && AllFrom(ds, after, ds[gs[k]].children)
            && AllOnTop(m, EntriesIn(ds, low, gs[..k + 1])) ==
               AllOnTop(m, EntriesIn(ds, low, gs[..k])) + AllOnTop(m, Entries(ds, gs[k]))
               + AllOnTop(m, EntriesIn(ds, after, ds[gs[k]].children))
  {
    hide WellFormed;
    var i, after := gs[k], gs[k] + 1;
    ChildrenAfter(ds, i);
    var before, children := Preorder(ds, low, gs[..k]), Preorder(ds, after, ds[i].children);
    assert gs[..k + 1] == gs[..k] + [i];
    assert Preorder(ds, low, [i]) == [i] + children by {
      assert [i][1..] == [] && Preorder(ds, low, []) == [] && Subtree(ds, i) == [i] + children;
    }
    assert AllEntries(ds, [i] + children) == Entries(ds, i) + AllEntries(ds, children) by {
      assert ([i] + children)[1..] == children;
    }
    hide AllEntries, Preorder, Subtree, Entries, AllOnTop, OnTop;
    PreorderConcat(ds, low, gs[..k], [i]);
    AllEntriesConcat(ds, before, [i] + children);
    var x, a, b := AllEntries(ds, before), Entries(ds, i), AllEntries(ds, children);
    Regroup(x, a, b);
    AllOnTopConcat(m, x, a, b);
  }

  // ---------------------------------------------------------------------------------------------
  // Every entry exactly once

  /** Group d is one of gs, or in one of them. */
  predicate Below(ds: seq<Decl>, d: nat, gs: seq<nat>)
    requires d < |ds|
    decreases d
  {
    d in gs || (ds[d].parent.Some? && ds[d].parent.value < d && Below(ds, ds[d].parent.value, gs))
  }

  /** No group of the list is in another one of it. */
  predicate Apart(ds: seq<Decl>, gs: seq<nat>)
    requires AllFrom(ds, 0, gs)
  {
    forall j, k :: 0 <= j < |gs| && 0 <= k < |gs| && j != k ==> !Below(ds, gs[j], [gs[k]])
  }

  predicate Distinct(s: seq<nat>) {
    forall j, k :: 0 <= j < k < |s| ==> s[j] != s[k]
  }

  lemma {:induction false} BelowNotBefore(ds: seq<Decl>, d: nat, g: nat)
    requires d < |ds| && Below(ds, d, [g])
    ensures d >= g
    decreases d
  {
    if d !in [g] {
      BelowNotBefore(ds, ds[d].parent.value, g);
    }
  }

  lemma {:induction false} BelowMore(ds: seq<Decl>, d: nat, gs: seq<nat>, hs: seq<nat>)
    requires d < |ds| && Below(ds, d, gs) && forall g <- gs :: g in hs
    ensures Below(ds, d, hs)
    decreases d
  {
    if d !in gs {
      BelowMore(ds, ds[d].parent.value, gs, hs);
    }
  }

  lemma {:induction false} BelowOne(ds: seq<Decl>, d: nat, gs: seq<nat>) returns (k: nat)
    requires d < |ds| && Below(ds, d, gs)
    ensures k < |gs| && Below(ds, d, [gs[k]])
    decreases d
  {
    if d in gs {
      k :| k < |gs| && gs[k] == d;
    } else {
      k := BelowOne(ds, ds[d].parent.value, gs);
    }
  }

  lemma {:induction false} BelowChildren(ds: seq<Decl>, d: nat, i: nat)
    requires WellFormed(ds) && i < |ds| && d < |ds|
    ensures Below(ds, d, [i]) <==> d == i || Below(ds, d, ds[i].children)
    decreases d
  {
    assert DeclOk(ds, d) && DeclOk(ds, i);
    if d in ds[i].children {
      assert Child(ds, i, d) && i in [i];
    } else if ds[d].parent.Some? {
      BelowChildren(ds, ds[d].parent.value, i);
    }
  }

  /** The ancestors of a group are in line. */
  lemma {:induction false} AncestorsInLine(ds: seq<Decl>, d: nat, a: nat, b: nat)
    requires a < |ds| && b < |ds| && d < |ds| && Below(ds, d, [a]) && Below(ds, d, [b])
    ensures Below(ds, a, [b]) || Below(ds, b, [a])
    decreases d
  {
    if d !in [a] && d !in [b] {
      AncestorsInLine(ds, ds[d].parent.value, a, b);
    }
  }

  lemma {:induction false} SiblingsApart(ds: seq<Decl>, i: nat)
    requires WellFormed(ds) && i < |ds|
    ensures AllFrom(ds, 0, ds[i].children) && Apart(ds, ds[i].children)
  {
    ChildrenAfter(ds, i);
    var cs := ds[i].children;
    assert DeclOk(ds, i);
    forall j, k | 0 <= j < |cs| && 0 <= k < |cs| && j != k ensures !Below(ds, cs[j], [cs[k]]) {
      assert Child(ds, i, cs[j]) && Child(ds, i, cs[k]) && cs[j] != cs[k];
      if Below(ds, cs[j], [cs[k]]) {
        BelowNotBefore(ds, i, cs[k]);
      }
    }
  }

  /** AddGroup comes to exactly the groups it is given and those in them. */
  lemma {:induction false} PreorderIsBelow(ds: seq<Decl>, low: nat, gs: seq<nat>, d: nat)
    requires WellFormed(ds) && low <= |ds| && AllFrom(ds, low, gs) && d < |ds|
    ensures d in Preorder(ds, low, gs) <==> Below(ds, d, gs)
    decreases |ds| - low, |gs| + 1
  {
    if gs == [] {
      NothingBelow(ds, d);
    } else {
      var rest := gs[1..];
      assert gs == [gs[0]] + rest;
      SubtreeIsBelow(ds, gs[0], d);
      PreorderIsBelow(ds, low, rest, d);
      assert Preorder(ds, low, gs) == Subtree(ds, gs[0]) + Preorder(ds, low, rest);
      hide WellFormed, Preorder, Subtree;
      if Below(ds, d, [gs[0]]) {
        BelowMore(ds, d, [gs[0]], gs);
      } else if Below(ds, d, rest) {
        BelowMore(ds, d, rest, gs);
      } else if Below(ds, d, gs) {
        var k := BelowOne(ds, d, gs);
        assert k > 0 && rest[k - 1] == gs[k];
        BelowMore(ds, d, [gs[k]], rest);
      }
    }
  }

  lemma {:induction false} NothingBelow(ds: seq<Decl>, d: nat)
    requires d < |ds|
    ensures !Below(ds, d, [])
    decreases d
  {
    if ds[d].parent.Some? && ds[d].parent.value < d {
      NothingBelow(ds, ds[d].parent.value);
    }
  }

  lemma {:induction false} SubtreeIsBelow(ds: seq<Decl>, i: nat, d: nat)
    requires WellFormed(ds) && i < |ds| && d < |ds|
    ensures d in Subtree(ds, i) <==> Below(ds, d, [i])
    decreases |ds| - i, 0
  {
    ChildrenAfter(ds, i);
    var after := i + 1;
    PreorderIsBelow(ds, after, ds[i].children, d);
    BelowChildren(ds, d, i);
    assert Subtree(ds, i) == [i] + Preorder(ds, after, ds[i].children);
  }

  /** And comes to each of them once, unless it is given a group together with one in it. */
  lemma {:induction false} PreorderOnce(ds: seq<Decl>, low: nat, gs: seq<nat>)
    requires WellFormed(ds) && low <= |ds| && AllFrom(ds, low, gs) && Apart(ds, gs)
    ensures Distinct(Preorder(ds, low, gs))
    decreases |ds| - low, |gs| + 1
  {
    if gs != [] {
      var i, rest := gs[0], gs[1..];
      SubtreeOnce(ds, i);
      PreorderOnce(ds, low, rest);
      var a, b := Subtree(ds, i), Preorder(ds, low, rest);
      assert Preorder(ds, low, gs) == a + b;
      hide Preorder, Subtree, WellFormed;
      forall d | d in a && d in b ensures false {
        SubtreeIsBelow(ds, i, d);
        PreorderIsBelow(ds, low, rest, d);
        var k := BelowOne(ds, d, rest);
        assert rest[k] == gs[k + 1];
        AncestorsInLine(ds, d, i, rest[k]);
      }
      DistinctConcat(a, b);
    }
  }

  lemma {:induction false} SubtreeOnce(ds: seq<Decl>, i: nat)
    requires WellFormed(ds) && i < |ds|
    ensures Distinct(Subtree(ds, i))
    decreases |ds| - i, 0
  {
    ChildrenAfter(ds, i);
    SiblingsApart(ds, i);
    var after := i + 1;
    PreorderOnce(ds, after, ds[i].children);
    var b := Preorder(ds, after, ds[i].children);
    assert Subtree(ds, i) == [i] + b;
    hide Preorder, Subtree, WellFormed;
    DistinctConcat([i], b);
  }

  lemma {:induction false} DistinctConcat(a: seq<nat>, b: seq<nat>)
    requires Distinct(a) && Distinct(b) && forall d <- a :: d !in b
    ensures Distinct(a + b)
  {
    forall j, k | 0 <= j < k < |a + b| ensures (a + b)[j] != (a + b)[k] {
      if j < |a| && k >= |a| {
        assert a[j] in a && b[k - |a|] in b;
      }
    }
  }

  /** Group flattening: what AddGroup registers is the entries of each group that is given or in a given one,
      each group once and before those in it. */
  lemma {:induction false} EveryGroupOnce(ds: seq<Decl>, gs: seq<nat>)
    requires WellFormed(ds) && AllFrom(ds, 0, gs) && Apart(ds, gs)
    ensures var order := Preorder(ds, 0, gs);
            && EntriesIn(ds, 0, gs) == AllEntries(ds, order)
            && Distinct(order) && (forall d: nat :: d < |ds| ==> (d in order <==> Below(ds, d, gs)))
  {
    PreorderOnce(ds, 0, gs);
    forall d: nat | d < |ds| ensures d in Preorder(ds, 0, gs) <==> Below(ds, d, gs) {
      PreorderIsBelow(ds, 0, gs, d);
    }
  }

  // ---------------------------------------------------------------------------------------------
  // In which order

  /** In an order without repetition: a comes before b. */
  predicate Precedes(order: seq<nat>, a: nat, b: nat) {
    && a in order && b in order
    && forall i, j :: 0 <= i < |order| && 0 <= j < |order| && order[i] == a && order[j] == b ==> i < j
  }

  lemma {:induction false} PrecedesAcross(x: seq<nat>, y: seq<nat>, a: nat, b: nat)
    requires Distinct(x + y) && a in x && b in y
    ensures Precedes(x + y, a, b)
  {
    var order := x + y;
    var i :| 0 <= i < |x| && x[i] == a;
    var j :| 0 <= j < |y| && y[j] == b;
    assert order[i] == a && order[|x| + j] == b;
  }

  /** A group and those in it stand together. */
  lemma {:induction false} SubtreeStandsTogether(ds: seq<Decl>, low: nat, gs: seq<nat>, p: nat)
      returns (before: seq<nat>, after: seq<nat>)
    requires WellFormed(ds) && low <= |ds| && AllFrom(ds, low, gs) && p < |ds| && p in Preorder(ds, low, gs)
    ensures Preorder(ds, low, gs) == before + Subtree(ds, p) + after
    decreases |ds| - low, |gs|
  {
    var i, rest := gs[0], gs[1..];
    ChildrenAfter(ds, i);
    var next := i + 1;
    var head, children, tail := Subtree(ds, i), Preorder(ds, next, ds[i].children), Preorder(ds, low, rest);
    assert Preorder(ds, low, gs) == head + tail && head == [i] + children;
    hide Preorder, Subtree, WellFormed;
    if p == i {
      before, after := [], tail;
      Inside([], [], head, [], tail);
    } else if p in children {
      var b, a := SubtreeStandsTogether(ds, next, ds[i].children, p);
      before, after := [i] + b, a + tail;
      Inside([i], b, Subtree(ds, p), a, tail);
    } else {
      var b, a := SubtreeStandsTogether(ds, low, rest, p);
      before, after := head + b, a + [];
      Inside(head, b, Subtree(ds, p), a, []);
    }
  }

  lemma {:induction false} Inside<T>(x: seq<T>, b: seq<T>, s: seq<T>, a: seq<T>, y: seq<T>)
    ensures x + (b + s + a) + y == (x + b) + s + (a + y)
    ensures x + [] == x && [] + x == x && [] + (s + y) == s + y && x + (b + s + a) + [] == x + (b + s + a)
    ensures [] + s + y == s + y
  {
  }

  /** A group is registered before those in it. */
  lemma {:induction false} GroupBeforeThoseInIt(ds: seq<Decl>, gs: seq<nat>, p: nat, d: nat)
    requires WellFormed(ds) && AllFrom(ds, 0, gs) && Apart(ds, gs) && p < |ds| && d < |ds|
    requires Below(ds, p, gs) && Below(ds, d, [p]) && d != p
    ensures Precedes(Preorder(ds, 0, gs), p, d)
  {
    EveryGroupOnce(ds, gs);
    SubtreeIsBelow(ds, p, d);
    var before, after := SubtreeStandsTogether(ds, 0, gs, p);
    ChildrenAfter(ds, p);
    var next := p + 1;
    var children := Preorder(ds, next, ds[p].children);
    assert Subtree(ds, p) == [p] + children;
    hide Preorder, Subtree, WellFormed, Below;
    Around(before, [p], [], children, after);
    assert [] + children == children && before + [p] + [] == before + [p];
    PrecedesAcross(before + [p], children + after, p, d);
  }

  lemma {:induction false} SplitInTurn(ds: seq<Decl>, low: nat, gs: seq<nat>, j: nat, k: nat, a: nat, b: nat)
    requires WellFormed(ds) && low <= |ds| && AllFrom(ds, low, gs) && j < k < |gs| && a < |ds| && b < |ds|
    requires Below(ds, a, [gs[j]]) && Below(ds, b, [gs[k]])
    ensures Preorder(ds, low, gs) == Preorder(ds, low, gs[..k]) + Preorder(ds, low, gs[k..])
    ensures a in Preorder(ds, low, gs[..k]) && b in Preorder(ds, low, gs[k..])
  {
    var x, y := gs[..k], gs[k..];
    assert gs == x + y && x[j] == gs[j] && y[0] == gs[k];
    PreorderConcat(ds, low, x, y);
    BelowMore(ds, a, [gs[j]], x);
    BelowMore(ds, b, [gs[k]], y);
    PreorderIsBelow(ds, low, x, a);
    PreorderIsBelow(ds, low, y, b);
  }

  /** The groups given are registered in turn, each with all that is in it. */
  lemma {:induction false} GivenInTurn(ds: seq<Decl>, gs: seq<nat>, j: nat, k: nat, a: nat, b: nat)
    requires WellFormed(ds) && AllFrom(ds, 0, gs) && Apart(ds, gs) && j < k < |gs| && a < |ds| && b < |ds|
    requires Below(ds, a, [gs[j]]) && Below(ds, b, [gs[k]])
    ensures Precedes(Preorder(ds, 0, gs), a, b)
  {
    EveryGroupOnce(ds, gs);
    SplitInTurn(ds, 0, gs, j, k, a, b);
    PrecedesAcross(Preorder(ds, 0, gs[..k]), Preorder(ds, 0, gs[k..]), a, b);
  }

  lemma {:induction false} Around<T>(a: seq<T>, b: seq<T>, x: seq<T>, y: seq<T>, c: seq<T>)
    ensures a + (b + (x + y)) + c == (a + b + x) + (y + c)
  {
  }

  lemma {:induction false} ChildrenSplit(ds: seq<Decl>, p: nat, j: nat, k: nat, a: nat, b: nat)
      returns (x: seq<nat>, y: seq<nat>)
    requires WellFormed(ds) && p < |ds| && a < |ds| && b < |ds|
    requires j < k < |ds[p].children| && ds[p].children[j] < |ds| && ds[p].children[k] < |ds|
    requires Below(ds, a, [ds[p].children[j]]) && Below(ds, b, [ds[p].children[k]])
    ensures Subtree(ds, p) == [p] + (x + y) && a in x && b in y
  {
    ChildrenAfter(ds, p);
    var next, cs := p + 1, ds[p].children;
    SplitInTurn(ds, next, cs, j, k, a, b);
    x, y := Preorder(ds, next, cs[..k]), Preorder(ds, next, cs[k..]);
  }

  /** And so are the groups in a group, in the order in which they were made. */
  lemma {:induction false} ChildrenInTurn(ds: seq<Decl>, gs: seq<nat>, p: nat, j: nat, k: nat, a: nat, b: nat)
    requires WellFormed(ds) && AllFrom(ds, 0, gs) && Apart(ds, gs) && p < |ds| && Below(ds, p, gs)
    requires j < k < |ds[p].children| && ds[p].children[j] < |ds| && ds[p].children[k] < |ds| && a < |ds| && b < |ds|
    requires Below(ds, a, [ds[p].children[j]]) && Below(ds, b, [ds[p].children[k]])
    ensures Precedes(Preorder(ds, 0, gs), a, b)
  {
    EveryGroupOnce(ds, gs);
    var before, after := SubtreeStandsTogether(ds, 0, gs, p);
    var x, y := ChildrenSplit(ds, p, j, k, a, b);
    hide Preorder, Subtree, WellFormed, Below;
    Around(before, [p], x, y, after);
    PrecedesAcross(before + [p] + x, y + after, a, b);
  }
}
