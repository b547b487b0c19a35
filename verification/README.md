# Elton, modelled and proved

Elton is an HTTP framework: a request runs through an onion of handlers that share a `Context`, the response
leaves through a stack of buffering writers, and ready-made middlewares cache, compress, tag, limit and trace.
This project restates the parts of it that hold state or transform data, and proves what they promise for every
input, every handler and every interleaving. Code that updates objects is written as classes and loops; each such
method is proved against a function on values, and the results are lemmas about those functions or about state
machines built from them.

| files | what they model |
|---|---|
| `Onion`, `OnionTheory`, `OnionContext` | the cursor of `chainNext`, the closures of `Compose`, handlers as arbitrary plans over what they can see; the Context object that refines them |
| `ContextReuse`, `PoolRuns`, `PoolHistory`, `RequestReuse` | recycled Contexts, parameters and writers: one object, all requests interleaved, the history of each, and one request on recycled objects |
| `Groups`, `RoutePath` | registration with fixed handler chains, group trees, route patterns and their parameter names |
| `Writers`, `WriterTheory`, `EdgeWriters`, `RouteFinish` | the buffering or forwarding `edgeWriter`, dispatch, nesting through `Pass`, and the end of a route |
| `HttpHeader`, `HeaderCodec`, `CacheCodec`, `CacheControl`, `CacheDirectives`, `CacheStore`, `CacheReply`, `CacheRuns`, `CacheStale`, `CacheHandler` | the response cache: header dictionary and codec, entry codec, lifetimes of every Cache-Control list, expiring store, the handler, and its concurrent runs |
| `BodyReader` | the limiting reader and the reading loops over an arbitrary stream |
| `Limiters` | the global and the per-route concurrency limiter under interleaving |
| `EntityTags`, `ConditionalGet` | weak comparison, the list scan, generated tags, and the ETag / Compress / Fresh stack |
| `Tracing`, `Tracker` | trace arithmetic and printing; cutting text at rune boundaries |
| `Text`, `Decimal` | byte strings, splitting, big-endian integers, `strconv` |

## What the proofs found

- `Compose` differs from writing its handlers out in place exactly when some call of Next is made on a committed
  Context with a later member of a Compose next in line, because the closure of `Compose` does not look at
  `Committed` (elton.go:840-848) and `chainNext` does (context.go:138).
- The comment above `NewCacheResponse` says that incomplete data gives the unknown status, which means "fetch"; an
  entry of 1 to 10 bytes that begins with the hit status is decoded as a hit without status code, header and body
  (middleware/cache.go:296-302). The model follows the code.
- A hit may be served with an Age above its lifetime: the four reads of the clock (deciding, storing, reading,
  answering) may fall in different seconds. The bound holds for every read exactly when the first two and the last
  two fall in the same second, and the machine reaches hits that exceed it by any number of seconds.
- The lifetime is that of the standard exactly for unambiguous lists of directives: `x-max-age=5` in front is taken
  for max-age, and `MAX-AGE=5` or `max-age="5"` is missed (middleware/cache.go:90-94).
- Of Set-Cookie and Content-Encoding only the first value is looked at (middleware/cache.go:109, 127), and
  `PRIVATE` is not seen (middleware/cache.go:90). A response with the Set-Cookie values "" and "sid=1" is stored and
  its cookie sent to later clients.
- The largest int64 limit makes the limiting reader panic, because the sum that cuts the slice wraps around
  (middleware/body_parser.go:241-243); the limit -1 makes it return the count -1. Without a positive limit nothing
  bounds the capacity that is taken from Content-Length.
- While an `edgeWriter` is unhandled the last `WriteHeader` wins (route.go:188-197), on a connection the first one
  does; buffering is invisible exactly when the two agree and the header is not changed after the first send.
- `detachEdgeFromContext` takes off one layer (route.go:151-158). After `Pass` the Context of the inner instance
  therefore goes on referring to the writer of the outer one. No writer is in its pool while a Context refers to it
  exactly in the runs in which every such Context has been taken again, or dropped, before the outer handler
  returns, and no handler has replaced its Response; a Context kept with `DisableReuse` is never taken again.
- The comma scan of `isFresh` does not look at an empty last part (fresh.go:78-90); that shows only for the tag
  `W/`, which is no entity tag. `etagWeakMatch` is not transitive on strings that are marked weak twice.
- A charge of `Calculate` is negative exactly when a handler has called Next again, and what that entered took longer
  than the traced handler entered last before it.
- A header whose values are none, or one empty string, does not survive the header codec
  (middleware/http_header.go:165-175).

## Model

| member | source | states |
|---|---|---|
| `OnionTheory.ComposeIsSplicing` | elton.go:829-851 | Compose anywhere in a chain and however nested gives the outcome, events and committed flag of the spliced chain, for all handlers, if and only if no Next on a committed Context has a later member of a Compose in line |
| `OnionTheory.ExposedIffEnteredAfterCommit` | elton.go:840-848 | that condition fails exactly when the composed chain enters a handler after Committed |
| `OnionTheory.ComposeOfRespectfulHandlers` | elton.go:829-851 | the equality holds for all handlers that do not call Next once they can see Committed |
| `OnionTheory.CommitThenNextTellsComposeApart` | elton.go:840-848 | a concrete chain on which Compose and splicing differ |
| `OnionTheory.PlainChainIsClean` | context.go:137-140 | without Compose no handler is entered after Committed, whatever the handlers do |
| `OnionTheory.HandlersEnteredInOrder` | context.go:137-165 | however often Next is called, the handlers entered are a prefix of the spliced snapshot: each at most once and in registration order |
| `OnionContext.Context.Next` | context.go:128-135 | calling the Next field runs whichever function it holds, exactly as the machine does |
| `OnionContext.Context.ChainNext` | context.go:137-165 | the in-place cursor does what the machine's chain step does, and nothing else on the heap changes |
| `OnionContext.Context.ComposedNext` | elton.go:834-848 | the closure that advances its own index and falls back to the original Next, restoring the field, refines the machine |
| `OnionContext.Context.CallCompose` | elton.go:830-851 | swapping in a new closure for the time of the call and putting the old Next back refines the machine, for closures over closures |
| `OnionContext.Context.RunBody` | context.go:137-165 | a handler body that emits, commits and calls Next through the object sees what it sees in the machine |
| `ContextReuse.RouteParams.Add` | route_params.go:32-35 | appends to both slices in step, with or without new storage |
| `ContextReuse.RouteParams.Reset` | route_params.go:38-41 | empties both and keeps the storage |
| `ContextReuse.RouteParams.Fill` | elton.go:451-464 | writing over recycled storage of any content and capacity leaves exactly the names and their path values |
| `ContextReuse.RouteParams.Get` | route_params.go:44-51 | the loop returns the value of the first entry of the key, or the empty string |
| `ContextReuse.RouteParams.ToMap` | route_params.go:54-60 | the loop builds the map in which the last entry of a key counts |
| `ContextReuse.LookupIn` | route_params.go:44-51 | Get finds the first entry of a key |
| `ContextReuse.AsMapIn` | route_params.go:54-60 | ToMap keeps the last entry of a key |
| `ContextReuse.FilledParams` | elton.go:451-464 | after filling, Get and ToMap both give the wildcard values, and Get gives nothing for other keys |
| `ContextReuse.Context.Reset` | context.go:168-195 | from any state left by an earlier request every observable field is that of a new Context |
| `ContextReuse.Context.Begin` | elton.go:432-491 | the first handler of a request on a recycled Context sees this request, response, id, route, handlers, trace and wildcard values, a name for each handler if traced, and every other field empty, as on a new one |
| `ContextReuse.AtStartIsOne` | elton.go:432-491 | that determines all it can see |
| `ContextReuse.Context.FillNames` | elton.go:477-491 | the trace names are those of this route's handlers, whatever the list held |
| `PoolRuns.HoldersAreExclusive` | elton.go:428-445 | in every interleaving of requests, passes, returns and pool losses no two levels share a writer or a Context, and none in use is in a pool |
| `PoolRuns.WritesReachTheOwnConnection` | route.go:128-137 | writing through a Context in use passes only writers in use and ends on the connection of its own request |
| `PoolRuns.ReleaseIsCleanIff` | route.go:139-158 | in a clean state, one return releases its writer cleanly exactly if the handler left its Response alone and no idle Context refers to that writer; PoolHistory gives the condition for whole runs |
| `PoolRuns.PlainRunsAreClean` | route.go:149-158 | without Pass and replaced Responses a writer is never in the pool while any Context refers to it |
| `PoolRuns.PassLeaves` | route.go:151-158 | after the inner level returns its Context refers to the writer of the level below |
| `PoolRuns.PassIsNotClean` | context.go:699-704 | if, after a Pass, both levels return with nothing in between, some Context refers to a released writer |
| `PoolRuns.KeptContextMeetsAnotherRequest` | context.go:685-692 | if that Context was kept out of the pool, it refers to the writer that the next request holds |
| `PoolHistory.CleanExactlyIfProper` | route.go:139-158 | in every run, no writer is ever in its pool while a Context refers to it if and only if every handler that returns left its Response alone and every Context its Passes used has been taken again or dropped before |
| `PoolHistory.ReturnIsClean` | route.go:139-158 | the same for a single return, from what was noted of the events of that frame |
| `RequestReuse.ServeRequest` | elton.go:366-445 | a matched request on a recycled Context and recycled writers, whatever they hold, is answered as on new ones, by handlers that are any function of what they see, and they see just what this request brings |
| `Groups.Group.NewGroup` | elton.go:758-765 | the child has the path and handlers of the parent followed by its own and is listed last; every group stays equal to the merge of its ancestors' declarations |
| `Groups.Group.Handle` | elton.go:767-774 | an entry with the path and handlers of the group followed by its own is appended; every group stays equal to its declaration |
| `Groups.NewGroup` | elton.go:179-184 | so does creating a top-level group |
| `Groups.FromTheRoot` | elton.go:746-752 | path and handlers of a group at any depth are those of its ancestors from the root on, then its own |
| `Groups.Elton.Use` | elton.go:592-598 | appends the middlewares, possibly in place, and changes no registered route |
| `Groups.Elton.Handle` | elton.go:405-421 | appends one route: the normalised path, and a private copy of the middlewares of the moment followed by its own handlers; earlier routes stay as they are |
| `Groups.Elton.AddGroup` | elton.go:735-744 | appends one route for every entry of the groups in preorder: under the normalised path of group and entry, with the middlewares, then the handlers of the group from the root on, then its own; earlier routes stay as they are |
| `Groups.EveryGroupOnce` | elton.go:735-744 | the order of registration contains exactly the groups given and those in them, each once, unless a group is given together with one in it |
| `Groups.GroupBeforeThoseInIt` | elton.go:735-744 | a group is registered before every group in it, at any depth |
| `Groups.GivenInTurn` | elton.go:735-744 | the groups given are registered in turn, each with all that is in it |
| `Groups.ChildrenInTurn` | elton.go:735-744 | the groups in a group are registered in the order in which they were made, each with all that is in it |
| `RoutePath.NormalizeRoutePath` | route.go:40-72 | the index loop computes the specification of the normaliser, in bounds on every byte string |
| `RoutePath.ExtractParamNames` | route.go:76-99 | the index loop computes the names of the braces, in order |
| `RoutePath.NormalizeIdempotent` | route.go:40-72 | normalising twice changes nothing, on every byte string |
| `RoutePath.BothSpellingsNormalizeAlike` | route.go:40-72 | for any list of literal and parameter segments with optional catch-all, the legacy and the ServeMux spelling normalise to the same pattern |
| `RoutePath.RestOfSegmentIsCopied` | route.go:54-70 | a legacy name ends at the first byte that is no letter, digit or underscore, and the rest of its segment, colons included, is copied behind the brace |
| `RoutePath.EndsNormalize` | route.go:40-50 | the empty path and the root become "/{$}", and a trailing "/*" becomes "/{path...}" |
| `RoutePath.NamesOfNormalized` | route.go:76-99 | from that pattern exactly the parameter names are extracted, in order |
| `RoutePath.NameOfCatchAll` | route.go:76-99 | a catch-all of any name gives that name, after those of the segments |
| `WriterTheory.HandledWritersAreTransparent` | route.go:199-215 | any operations through any stack of handled writers reach the connection as if made on it |
| `WriterTheory.AtMostOneWriteHeader` | route.go:188-215 | through handled writers any operations make at most one WriteHeader call below, and no Write or Flush before it |
| `WriterTheory.RoutedRequestSendsOneHeader` | elton.go:428-533 | so for a whole request with a matched route, whatever it passes on to other instances |
| `WriterTheory.DispatchIsFlattening` | elton.go:347-384 | a request is answered, at any nesting through Pass, with exactly one program: the route's, the site's 404 or 405 handler on a mux miss, or the mux's own answer; ServeHTTP is modelled with its test of the writer after the mux |
| `WriterTheory.RouteNeverReachesTheSite` | elton.go:367-383 | the writer of a matched route is handled when the mux returns, whatever status its handlers sent and whatever they passed on, so the 404 and 405 handlers make no difference |
| `WriterTheory.RouteStaysHandled` | route.go:263-275 | no operation and no nested dispatch makes a handled writer, or one below it, unhandled |
| `WriterTheory.MuxAnswerByStatus` | elton.go:369-382 | what the mux answers by itself with 404 is answered by the NotFoundHandler alone, with 405 by the MethodNotAllowedHandler alone, given the Allow of the mux; any other answer of the mux arrives with its status, headers and body |
| `WriterTheory.SilentMuxIsNotFound` | elton.go:376-377 | a mux that sends nothing has found nothing |
| `WriterTheory.RefusedIsUnavailable` | elton.go:348-357 | an instance that is not running answers 503 with its message |
| `WriterTheory.MarkingMovesHeaders` | route.go:170-186 | marking moves the collected headers to the connection, sends nothing, and forgets status and body collected so far |
| `WriterTheory.FlushPassesTheBuffer` | route.go:244-251 | a flush goes through an unhandled writer to the connection and leaves what is buffered where it is |
| `WriterTheory.BufferedAsDirectIff` | route.go:218-237 | buffering and flushing gives the wire response of direct writing exactly when the last status is the first one and the header is final at the first send |
| `WriterTheory.DisciplinedIsUnchanged` | route.go:218-237 | programs that write headers, then the status, then the body meet that condition |
| `WriterTheory.LastWriteHeaderWins` | route.go:188-197 | two different WriteHeader calls tell buffering from direct writing |
| `EdgeWriters.EdgeWriter.WriteHeader` | route.go:188-197 | the fields after the call are those of the value model, for writers nested to any depth |
| `EdgeWriters.EdgeWriter.Write` | route.go:199-215 | likewise for Write |
| `EdgeWriters.EdgeWriter.Flush` | route.go:244-251 | likewise for Flush |
| `EdgeWriters.EdgeWriter.OnHeader` | route.go:160-168 | likewise for changes of the map that Header returns |
| `EdgeWriters.EdgeWriter.MarkHandled` | route.go:170-186 | likewise for the move from buffering to forwarding |
| `EdgeWriters.EdgeWriter.FlushBuffer` | route.go:218-237 | likewise for the final flush of a buffered response |
| `EdgeWriters.EdgeWriter.Acquire` | route.go:128-137 | a recycled writer, whatever its fields, becomes the writer of a new one |
| `EdgeWriters.ServeHTTP` | elton.go:347-384 | dispatch on the objects does what the value model says, through any nesting of instances, with writers taken from a pool of arbitrary content and put back |
| `EdgeWriters.RunMuxOn` | elton.go:367-368 | running the mux on an edgeWriter, a route or an answer of its own, does what the value model says |
| `EdgeWriters.ConcludeOn` | elton.go:369-382 | the switch on handled and status does what the value model says |
| `EdgeWriters.Pool.Acquire` | route.go:128-137 | a writer from the pool, new or recycled, is that of a new one, and nothing below changes |
| `EdgeWriters.Pool.Release` | route.go:139-147 | the writer goes back to the pool |
| `RouteFinish.Context.CloseReaderBody` | context.go:731-740 | closes a closable reader once and forgets it, and touches nothing else |
| `RouteFinish.Context.Pipe` | context.go:707-717 | commits, writes every piece of the reader in order, and closes it once |
| `RouteFinish.Context.Finish` | elton.go:503-533 | what is sent after the chain returned, on every path; a reader body of an uncommitted chain is closed exactly once and read only if it is what is sent |
| `RouteFinish.LengthIsExact` | elton.go:514-524 | through any stack of instances a buffered body arrives whole, with the status set and a Content-Length equal to its length, over any length declared before |
| `RouteFinish.ErrorAnswered` | elton.go:641-670 | an error arrives with its status and message and without the four headers of the abandoned body |
| `RouteFinish.ErrorHandlerAnswers` | elton.go:641-654 | a configured ErrorHandler alone answers an error: all it does, through any stack of instances, reaches the connection without the four headers |
| `RouteFinish.PipedWhole` | elton.go:527-533 | a reader body arrives whole and in order; without any body only the status that was set is sent |
| `HeaderCodec.SetShortHeaders` | middleware/http_header.go:138-156 | whatever the list, the dictionary is consistent and knows exactly the folded names; too long a list is refused |
| `HeaderCodec.NewHTTPHeaders` | middleware/http_header.go:216-234 | the loop's bytes are the encoding of the kept headers in some order of the map |
| `HeaderCodec.HeaderOf` | middleware/http_header.go:237-249 | the decoding loop computes the decoding function, total on every byte string |
| `HeaderCodec.HeaderRoundTrip` | middleware/http_header.go:178-213 | one encoded header decodes to its name and its values, except for no or one empty value |
| `HeaderCodec.HeadersRoundTrip` | middleware/http_header.go:216-249 | every encoding decodes to the header minus ignored names and lost values, whatever the dictionary and the map order |
| `CacheCodec.ToBytes` | middleware/cache.go:197-250 | filling the buffer by offsets gives the layout of the entry, with some encoding of its headers |
| `CacheCodec.NewCacheResponse` | middleware/cache.go:289-343 | the decoder is total and in bounds on every byte string and computes the decoding function |
| `CacheCodec.DecodePrefix` | middleware/cache.go:289-343 | every truncation of an encoded hit: nothing gives Unknown, 1 to 10 bytes a bare hit, up to the end of the headers Unknown, longer the same entry with a prefix of the body |
| `CacheCodec.HitRoundTrip` | middleware/cache.go:197-343 | a hit within the field widths decodes to its status, time, status code, compression, body and kept headers |
| `CacheCodec.MarkRoundTrip` | middleware/cache.go:197-206 | an entry that is not a hit decodes to its status alone |
| `CacheCodec.ShortHitIsStillAHit` | middleware/cache.go:284-300 | data of 1 to 10 bytes of a hit is still a hit |
| `CacheControl.CacheMaxAgeRoundTrip` | context.go:627-637 | what Context.CacheMaxAge writes is read back as s-maxage if present, else max-age |
| `CacheControl.PrivateIsNotCached` | context.go:640-646 | what Context.PrivateCacheMaxAge writes is never cached |
| `CacheControl.ContainsIff` | middleware/cache.go:90-90 | an expression without special characters is found exactly if it is written somewhere in the text |
| `CacheDirectives.MaxAgeOfEveryList` | middleware/cache.go:125-160 | for every list of directives, over any lines and with any padding, and every Age: 0 with a Set-Cookie or a banned word, else the first s-maxage found, else the first max-age found, minus Age in int64 |
| `CacheDirectives.LifetimeIsStandard` | middleware/cache.go:125-160 | for every unambiguous list this is the lifetime of section 4.2.1 of RFC 9111 minus the upstream Age |
| `CacheDirectives.StandardChoiceIff` | middleware/cache.go:90-94 | the code reads the lifetime from the directive of the standard exactly if the first directive that either of them takes for it is the plain name in lower case with unquoted digits |
| `CacheDirectives.BothIsPlain` | middleware/cache.go:90-94 | code and standard take a number from the same directive exactly in that plain form |
| `CacheDirectives.LongerNameIsTaken` | middleware/cache.go:90-94 | a directive whose name merely ends with max-age is taken for it, and a max-age behind it is not read |
| `CacheDirectives.OtherSpellingIsMissed` | middleware/cache.go:90-94 | a max-age in other letters or with a quoted argument is not read |
| `CacheDirectives.ForbiddingIsNoticedIff` | middleware/cache.go:90-94 | a no-cache, no-store or private without argument is noticed exactly in lower case |
| `CacheStore.LRUStore.Get` | middleware/lru_store.go:47-64 | returns the payload unless the entry is missing, too short or past its expiry |
| `CacheStore.LRUStore.Set` | middleware/lru_store.go:66-73 | the buffer written in place is the expiry in uint32 arithmetic followed by the payload |
| `CacheStore.TtlIsWholeSeconds` | middleware/lru_store.go:66-70 | a duration counts in whole seconds, rounded down |
| `CacheStore.StampRoundTrip` | middleware/lru_store.go:47-73 | a stored value reads back as its payload exactly until its expiry second has passed |
| `CacheStore.UnstampedIsPayloadOrNothing` | middleware/lru_store.go:47-64 | whatever the clocks, a read gives the payload or nothing |
| `CacheReply.OnlyCacheableIsKept` | middleware/cache.go:103-121 | what is kept is no reader body, has an empty first value of Set-Cookie and of Content-Encoding, none of the three words in lower case, and a positive lifetime |
| `CacheReply.DecisionIff` | middleware/cache.go:103-122 | a response is marked for passing exactly if it is a reader, encoded, nothing at all, or without a positive lifetime; otherwise it is kept unless marshalling or compressing fails |
| `CacheReply.KeptCompressedIff` | middleware/cache.go:446-465 | an entry keeps status, header and time, and is compressed exactly if the compressor accepts content type and size |
| `CacheReply.KeptWithCookiesIff` | middleware/cache.go:103-128 | a response with Set-Cookie or Content-Encoding becomes a hit exactly if it would without them and each of the two, if present, begins with an empty value |
| `CacheReply.CookieBehindEmptyIsKept` | middleware/cache.go:125-128 | a response that is cacheable without cookies is kept with a cookie that stands behind an empty value |
| `CacheReply.MergeAppends` | context.go:470-476 | merging a header appends its values to each name, whatever the map order |
| `CacheReply.SetBodyDelivers` | middleware/cache.go:253-282 | serving an entry never fails and gives, once its Content-Encoding is undone, the bytes it holds: compressed exactly if they are stored so and the client accepts that encoding |
| `CacheReply.KeptHoldsTheBody` | middleware/cache.go:358-367 | a kept entry, compressed or not, holds the bytes of the BodyBuffer, or of the marshalled Body if there is none |
| `CacheReply.FetchDelivers` | middleware/cache.go:473-473 | the client that caused the fetch gets the same bytes |
| `CacheHandler.Context.MergeHeader` | context.go:470-476 | the two loops over the map add all values in some order of the names |
| `CacheHandler.Context.SetBody` | middleware/cache.go:271-282 | sets body and Content-Encoding together, or neither |
| `CacheHandler.Begin` | middleware/cache.go:400-430 | reading the store and setting X-Cache, for fetch and hit-for-pass |
| `CacheHandler.ServeHit` | middleware/cache.go:417-428 | the branch for a hit does what the run model calls serving |
| `CacheHandler.Finish` | middleware/cache.go:435-473 | after Next: mark, fail, or encode, store and answer, as the run model's steps; the client gets the bytes of the BodyBuffer or of the marshalled Body |
| `CacheRuns.HitsAreTransparent` | middleware/cache.go:400-473 | in every interleaving of requests, ticks and evictions each hit is an earlier, cacheable response for the same key: its status, its kept headers merged onto what was there, and, once decoded, exactly the bytes of its BodyBuffer, or of its Body marshalled |
| `CacheRuns.HitHeaderValues` | middleware/cache.go:80-87 | of the values the handlers gave a header a hit has all, unless the name is one of the six or configured, in any letter case |
| `CacheRuns.ContentTypeIsServed` | middleware/cache.go:80-87 | so Content-Type reaches the client of every hit |
| `CacheRuns.MarkPassesUntilItExpires` | middleware/cache.go:411-415 | a hit-for-pass mark lets requests pass up to and including its expiry second, then one fetches |
| `CacheRuns.HitAnswersUntilItExpires` | middleware/cache.go:416-428 | a stored hit answers up to and including the last second of its lifetime from the moment of storing, then a request fetches |
| `CacheRuns.OnlyCacheableIsStored` | middleware/cache.go:103-160 | in every run a stored hit is no reader body, and has an empty first value of Set-Cookie and of Content-Encoding and none of the three words in lower case |
| `CacheRuns.HiddenCookieIsReplayed` | middleware/cache.go:417-428 | a cookie behind an empty value is sent to every client answered from the hit, unless Set-Cookie is configured to be ignored |
| `CacheRuns.OriginsWereReturned` | middleware/cache.go:431-473 | every stored hit comes from a response that handlers returned earlier for that key |
| `CacheRuns.RunKeepsInv` | middleware/cache.go:400-473 | in every state of every run the store holds marks and genuine entries of their own key only |
| `CacheRuns.AgeBound` | middleware/cache.go:420-422 | the Age of a hit is the time since it was examined, and exceeds its lifetime by no more than the seconds between examining and storing and between reading and answering |
| `CacheRuns.AgeBoundIsTightOnlyWithoutGaps` | middleware/lru_store.go:47-73 | Age never exceeds the lifetime exactly when no second passes in those two gaps |
| `CacheStale.StaleHitIsServed` | middleware/cache.go:400-473 | for every kept response and any seconds in the two gaps there is a run from the empty store that ends by serving its hit with an Age that many seconds above the lifetime |
| `CacheStale.EveryLifetimeOccurs` | middleware/cache.go:103-121 | there are such responses, with every lifetime from one second up |
| `BodyReader.MaxBytesReader.Read` | middleware/body_parser.go:231-258 | for any stream and any int64 limit: panics exactly when the slice bound is negative; otherwise delivers a prefix, delivered plus remaining is the limit until an error, the error is sticky; for the limit -1 it returns the count -1 |
| `BodyReader.SliceBoundNegativeIff` | middleware/body_parser.go:241-243 | the int64 sum is negative exactly for the largest limit, where it wraps around, and below -1 |
| `BodyReader.ReadAllInitCap` | util.go:68-87 | panics exactly if make refuses the capacity or the reader panics; otherwise returns the whole stream and its error whatever the capacity and the way append grows |
| `BodyReader.ReadAllToBuffer` | util.go:91-94 | the same into a reused buffer |
| `BodyReader.InitCap` | middleware/body_parser.go:288-299 | the capacity taken from Content-Length never exceeds a positive limit |
| `BodyReader.InitCapOfDigits` | middleware/body_parser.go:288-299 | a Content-Length in digits is the capacity, cut to a positive limit |
| `BodyReader.OnlyALimitBoundsTheCapacity` | middleware/body_parser.go:288-302 | some Content-Length makes the capacity exceed what make accepts exactly when there is no positive limit, or it is above that itself |
| `BodyReader.ReadAll` | middleware/body_parser.go:279-321 | returns the body exactly when the stream ends without error and within the limit, whatever the chunking and the pooled buffer; panics exactly for the largest limit or a capacity that make refuses; the body is closed |
| `Limiters.LocalRouterConcurrencyLimiter.IncConcurrency` | middleware/router_concurrent_limiter.go:80-86 | adds one to the counter of a known route, modulo 2^32, and to no other |
| `Limiters.LocalRouterConcurrencyLimiter.DecConcurrency` | middleware/router_concurrent_limiter.go:89-96 | takes one away likewise |
| `Limiters.CounterIsInFlight` | middleware/router_concurrent_limiter.go:116-134 | in every interleaving the counter equals the requests in flight, exactly while they are fewer than 2^32; it is 0 when there are none |
| `Limiters.NeverAboveTheCap` | middleware/concurrent_limiter.go:220-235 | in every interleaving at most Max-1 requests are past the global limiter, and at most its limit past that of a route |
| `Limiters.DecidedAsOfArrival` | middleware/concurrent_limiter.go:223-234 | whenever the stale value is compared, a request is admitted exactly if those in flight at its arrival, with it, were within the cap: none is turned away below it |
| `Limiters.RoutesAreIndependent` | middleware/router_concurrent_limiter.go:80-96 | requests of one route leave the counter of another alone |
| `EntityTags.IsFresh` | fresh.go:60-109 | the hand-written scan decides as "some trimmed part between commas weakly matches", with the other conditions in the order of the code |
| `EntityTags.WeakMatchIsOpaqueEquality` | fresh.go:46-57 | on entity tags the test is the weak comparison of section 2.3.2 of RFC 7232; on other strings exactly but for doubly marked tags |
| `EntityTags.WeakMatchIsEquivalence` | fresh.go:46-57 | it is an equivalence on entity tags |
| `EntityTags.WeakMatchIsNotTransitive` | fresh.go:46-57 | and not on all strings |
| `EntityTags.ScanSeesEveryPart` | fresh.go:76-94 | for every tag but the bare weak mark the scan is the same as splitting at commas |
| `EntityTags.EmptyLastPartIsNotSeen` | fresh.go:78-90 | for that one it is not |
| `EntityTags.GeneratedIsEntityTag` | middleware/helper.go:55-72 | a generated tag is a strong entity tag without comma or white space |
| `EntityTags.TagTellsBodiesApart` | middleware/helper.go:55-72 | two bodies have the same tag exactly if they have the same length and the same hash |
| `EntityTags.NoCacheIff` | fresh.go:32-32 | no-cache is found exactly if an element of the comma list is that word, with blanks around it |
| `ConditionalGet.Context.AddETag` | middleware/etag.go:46-73 | the generated tag is set exactly on a non-empty body with status 0 or 200 to 299 and no tag yet; nothing else changes |
| `ConditionalGet.Context.Compress` | middleware/compress.go:111-215 | an eligible response is given to the hook and then to the first compressor that accepts: a buffered body is replaced by what it makes of it at the level asked for, a reader is piped and the response committed, and the header names the encoding, extends Vary, weakens a strong tag and is otherwise the same; nothing changes if compressing fails |
| `ConditionalGet.Context.FillHeader` | middleware/compress.go:158-169 | the encoding is the only Content-Encoding, Accept-Encoding is added to Vary, a strong tag becomes weak, and every other header is as it was |
| `ConditionalGet.Context.NotModified` | context.go:594-613 | status 304, no body, the four content headers removed and no other |
| `ConditionalGet.Context.Freshen` | middleware/fresh.go:46-80 | a GET or HEAD with a fresh copy of a non-empty body of status 0 or 200 to 299 becomes a bare 304, and nothing else changes |
| `ConditionalGet.CompressedKeeps` | middleware/compress.go:158-169 | compressing keeps the status, and the tag up to its strength |
| `ConditionalGet.RespondPreserves` | middleware/compress.go:111-215 | through any stack of Compress, Fresh and ETag an answer with a body has the handler's body once its Content-Encoding is undone, an encoding put on the way is announced by Vary, and a body is left out only with a 304 |
| `ConditionalGet.RespondDecides` | middleware/fresh.go:46-80 | with any Compress inside and outside of Fresh the client always sees the tag of the body, and gets a 304 or the body as Fresh decides on that tag |
| `ConditionalGet.NotModifiedByDate` | fresh.go:94-107 | with If-Modified-Since a 304 needs two readable dates with the body not the later, and without tags and no-cache that is also enough |
| `ConditionalGet.NotModifiedByDateAndTag` | fresh.go:60-109 | with If-Modified-Since and a list of entity tags a 304 needs both, the dates and a tag that matches |
| `ConditionalGet.NoCacheGetsTheBody` | fresh.go:64-67 | a request with no-cache anywhere in its Cache-Control gets the body |
| `ConditionalGet.RevalidationIsNotModified` | middleware/fresh.go:46-80 | a client that sends back the tag it was given, strong or weakened, anywhere in a list, gets a 304 for the same body |
| `ConditionalGet.NotModifiedIffTagListed` | fresh.go:60-109 | a list of entity tags gives a 304 exactly if one has the opaque tag of the body, and the body otherwise |
| `Tracing.Trace.Add` | trace.go:69-72 | appends an entry |
| `Tracing.Trace.Calculate` | trace.go:78-94 | the in-place subtraction through the entry seen last makes every middleware entry lose the duration of the next one; a second call changes nothing |
| `Tracing.CalculatedAt` | trace.go:78-94 | what each entry is left with; entries that are no middleware are unchanged |
| `Tracing.CalculatedIsDifferences` | trace.go:78-94 | on middleware entries it is the difference of neighbours |
| `Tracing.DifferencesSum` | trace.go:78-94 | whatever was recorded, the charges add up to the first middleware entry |
| `Tracing.CalculateChargesEachHandler` | context.go:146-164 | for handlers that call Next at most once every traced handler is charged its own time and that of the hidden handlers it leads to, never a negative time, and the charges add up to the outermost one |
| `Tracing.NonNegativeChargesIff` | context.go:146-164 | for handlers that call Next any number of times: no handler is charged a negative time exactly if, wherever two traced calls follow each other inside the same one, the second takes no longer than the traced handler entered last before it |
| `Tracing.SecondNextIsCharged` | trace.go:78-94 | a handler that calls Next twice: the handler of the first call is charged the difference of the two |
| `Tracing.NextRecords` | context.go:146-164 | the recorded durations are those of the calls in the order of entry, and no call is shorter than those in it together |
| `Tracing.WriteMs` | trace.go:105-131 | the appended text is that of the specification |
| `Tracing.MsIsExact` | trace.go:105-131 | read as a decimal, the text is the duration in hundredths of a millisecond rounded down |
| `Tracker.TruncateString` | middleware/tracker.go:74-82 | the longest prefix within the limit that ends where a character starts, on every byte string |
| `Tracker.ValidCutIffRuneStart` | middleware/tracker.go:74-82 | a valid UTF-8 string (section 3 of RFC 3629) is cut into valid halves exactly where a character starts |
| `Tracker.LongestValidPrefix` | middleware/tracker.go:74-82 | of a valid string longer than the limit the longest valid prefix is kept, and the rest is valid |
| `Tracker.NoteIsExact` | middleware/tracker.go:84-87 | from the text one reads back the prefix and the exact number of bytes cut off |
| `Tracker.MaskedIsNeverShown` | middleware/tracker.go:89-104 | what is shown for a masked key does not depend on its value; other values are shown whole, or as a prefix within the limit with the exact number of bytes missing |
| `Tracker.ConvertMap` | middleware/tracker.go:89-104 | every entry, in any order, masked or cut, and three stars for every masked key |

## Left out

- The HTTP server, sockets, TLS, files, templates, multipart and JSON; `http.ServeMux` matching, which is an oracle that picks a route or runs a program of its own.
- Handlers that do not return: a handler is a plan that looks at everything it can see and takes a bounded number of steps of its own; panics and goroutines that keep a Context are not modelled, so neither is a writer that a panic keeps out of its pool.
- `OnionTheory.ComposeIsSplicing`: Compose with an empty list panics in the code; the theorem also holds for the empty list.
- Names of handlers, traces and listeners inside the onion machine; traces have a model of their own, which keeps of the handlers only their times and calls of Next.
- Writers: informational (1xx) responses, `Hijack` and `Unwrap`, write errors, and the rule of net/http that 204 and 304 responses have no body; status codes outside 100 to 999 make net/http panic.
- `WriterTheory.DispatchIsFlattening`: the mux's own programs and 404/405 handlers are assumed not to flush a buffered response, which the mux never does.
- `RouteFinish.Context.Finish`: the response writer is a value there, and net/http's implicit header at the end of a request that sent nothing is not part of it.
- `PoolRuns.ReleaseIsCleanIff`: detaching and releasing are one step, and requests that match no route, which take no Context, do not appear.
- `Groups.Group.Handle`: lists of handlers in groups are values; a program that changes the slice it passed to NewGroup is not modelled. Conflicting patterns, for which the mux panics, are not either.
- `ContextReuse.RouteParams.Add`: the two slices are assumed to grow alike, as append does for equal lengths and capacities; a program that sets the exported slices itself may break that. The recycled list of handler names is a value.
- `CacheDirectives.MaxAgeOfEveryList`: lists that break the grammar of section 5.2 of RFC 9111, and escapes in quoted arguments, are not covered; Expires, which the code does not read, is not part of the lifetime.
- `BodyReader.ReadAll`: growing a buffer is assumed to succeed; `maxAlloc` stands for the largest capacity that make accepts.
- `RequestReuse.ServeRequest`: instances that the request is passed to run fixed programs, so only the outermost Context is an object there.
- The cache's compressors are functions with the law that decompressing undoes compressing; gzip, brotli and zstd are not modelled, nor is the order of eviction: any entry may vanish at any time.
- `CacheRuns.HitsAreTransparent`: responses are assumed to fit the entry format (canonical names, values without NUL and newline, status below 2^16, encoded headers below 2^32), store errors are not modelled, and requests the skipper or the method lets through do not enter the machine.
- A nil header and an empty one, and a nil body and an empty one, are the same in decoded entries.
- Letter case and white space are those of ASCII; regular expressions are restated as predicates on bytes.
- `ConditionalGet.Context.Compress`: what a piped reader sends is not part of this model; dates are parsed by an abstract function.
- `ConditionalGet.RespondPreserves`: assumes that each compressor's output is undone by the client's decoder for the encoding it accepted, and that no hook fails or touches the body or its encoding; piped readers are not covered.
- `ConditionalGet.RevalidationIsNotModified`: assumes that no compressor turns a body into nothing, that no hook fails or touches status, tag or body, and that the base64 form of a hash uses its alphabet only; different bodies may share a hash, of which nothing is claimed.
- `Limiters.NeverAboveTheCap`: the limiter with a user-supplied lock, and removed routes, are not modelled.
- `Tracing.Trace.Calculate`: no entry is listed twice, since every entry is allocated when it is added; clocks are monotone. `ServerTiming` and `Filter` are left out.
- Proxying, static files, logging, CORS, authentication, request ids, timeouts, statistics, recovery and rendering: handlers of one branch, which would only add easy members.
