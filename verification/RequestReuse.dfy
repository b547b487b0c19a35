/** One request on recycled objects (elton.go): its Context and its writers come from pools. */
module RequestReuse {
  import opened Text
  import opened Writers
  import EdgeWriters
  import ContextReuse

  /** ServeHTTP and the route function, for a matched route.  The handlers are any function of what they see of
      the Context at the start.  Whatever earlier requests left in the Context that the pool gives out, in its
      storage and in the pooled writers, the client gets the answer of new objects. */
  method ServeRequest(w: EdgeWriters.ResponseWriter, site: Site, handler: ContextReuse.View -> seq<Act>,
                      start: ContextReuse.Start, c: ContextReuse.Context, writers: EdgeWriters.Pool)
    requires w.Valid() && writers.Apart(w) && c.Valid()
    requires c !in w.Footprint() && c.params !in w.Footprint()
    requires c.params.keys !in w.Footprint() && c.params.values !in w.Footprint()
    modifies w.Footprint(), writers, writers.free, c, c.params, c.params.keys, c.params.values
    ensures w.Valid() && w.Footprint() == old(w.Footprint()) && writers.Apart(w)
    ensures exists seen :: ContextReuse.AtStart(seen, start)
                           && w.Abs() == Serve(old(w.Abs()), Accepted(site, Route(handler(seen))))
  {
    hide Serve, ContextReuse.AtStart;
    c.Begin(start);
    var seen := c.Observe();
    EdgeWriters.ServeHTTP(w, Accepted(site, Route(handler(seen))), writers);
  }
}
