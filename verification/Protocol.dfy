/**
  The caching transport as a state machine. The backend is one key space that holds ref
  lists (by URL key) and entries (by response ID); a foreground `RoundTrip` is one step and
  each background revalidation is a later step of its own. What a step does is computed as
  a `Verdict`; module `Transport` holds the code that carries it out.
 */
module Protocol {
  import opened Base
  import opened Http
  import opened Freshness
  import Csv
  import CC = CacheControl
  import Vary

  // ----- State -----

  datatype Blob = Refs(refs: seq<Ref>) | Stored(entry: Entry)

  type Conn = map<string, Blob>

  /** A reply obtained from upstream, with the request it answered as sent. */
  datatype Exchange = Exchange(req: Request, reply: Reply, start: Time, end: Time)

  /** A background revalidation that has not run yet. */
  datatype Job = Job(req: Request, stored: Entry, freshness: Freshness, ccReq: CC.Directives)

  datatype World = World(conn: Conn, pending: seq<Job>, trace: seq<Exchange>)

  const INIT: World := World(map[], [], [])

  /** The keys for which the backend fails in a step, by operation. */
  datatype Faults = Faults(unreadable: set<string>, unwritable: set<string>, undeletable: set<string>)

  const NO_FAULTS: Faults := Faults({}, {}, {})

  // ----- What a step decides -----

  datatype Outcome = Failed | Returned(reply: Reply)

  datatype Effect =
    | Keep
    | Store(key: string, entry: Entry, refs: seq<Ref>)  // write the entry, then the list
    | Erase(trail: seq<string>)                         // delete these keys, in this order

  datatype Verdict = Verdict(outcome: Outcome, effect: Effect, exchange: Option<Exchange>, job: Option<Job>)

  function Apply(conn: Conn, effect: Effect, faults: Faults): Conn {
    match effect
    case Keep => conn
    case Store(key, entry, refs) =>
      var written := if entry.id in faults.unwritable then conn else conn[entry.id := Stored(entry)];
      if key in faults.unwritable then written else written[key := Refs(refs)]
    case Erase(trail) => Without(conn, trail, faults)
  }

  function Without(conn: Conn, gone: seq<string>, faults: Faults): Conn {
    conn - ((set k | k in gone) - faults.undeletable)
  }

  // ----- Reading -----

  /** `GetRefs`: an absent key, a failing read and a blob of the other kind are all errors. */
  function GetRefs(conn: Conn, key: string, faults: Faults): Option<seq<Ref>> {
    if key in conn && key !in faults.unreadable && conn[key].Refs? then Some(conn[key].refs) else None
  }

  function RefsOrNil(conn: Conn, key: string, faults: Faults): seq<Ref> {
    match GetRefs(conn, key, faults)
    case Some(refs) => refs
    case None => []
  }

  function GetEntry(conn: Conn, id: string, faults: Faults): Option<Entry> {
    if id in conn && id !in faults.unreadable && conn[id].Stored? then Some(conn[id].entry) else None
  }

  // ----- Storing -----

  /** `StoreResponse`: the entry, and the list with the ref at `index` replaced or, when
      there is none, appended. `number` is the exchange that caused the write. */
  function StoreEffect(lib: Library, req: Request, resp: Reply, lineage: seq<nat>, refs: seq<Ref>,
                       index: int, start: Time, end: Time): Effect
  {
    var data := resp.(header := EndToEnd(resp.header));
    var vary := VaryOf(data.header);
    var resolved := Vary.Resolve(lib, vary, req.header);
    var id := Vary.VaryKey(lib, req.url.key, resolved);
    var ref := Ref(id, vary, resolved, DateOf(lib, data.header));
    Store(req.url.key, Entry(id, data, start, end, lineage),
          if 0 <= index < |refs| then refs[index := ref] else refs + [ref])
  }

  // ----- Invalidating -----

  function Ids(refs: seq<Ref>): seq<string> {
    seq(|refs|, i requires 0 <= i < |refs| => refs[i].id)
  }

  /** The URL key a location field invalidates: same origin only. */
  function LocationKey(lib: Library, url: URL, h: Header, field: string): Option<string> {
    if Get(h, field) == "" then None
    else
      match lib.resolve(url, Get(h, field))
      case None => None
      case Some(loc) => if SameOrigin(url, loc) then Some(loc.key) else None
  }

  function LocationKeys(lib: Library, url: URL, h: Header): seq<string> {
    Listed(LocationKey(lib, url, h, "Location")) + Listed(LocationKey(lib, url, h, "Content-Location"))
  }

  function Listed<T>(o: Option<T>): seq<T> {
    match o
    case Some(v) => [v]
    case None => []
  }

  /** The deletions asked for, with repetitions, after the locations: each list is read from
      what earlier deletions left. */
  function LocationTrail(conn: Conn, gone: seq<string>, locations: seq<string>, faults: Faults): seq<string>
    decreases |locations|
  {
    if locations == [] then gone
    else
      var ids := Ids(RefsOrNil(Without(conn, gone, faults), locations[0], faults));
      LocationTrail(conn, gone + ids + [locations[0]], locations[1..], faults)
  }

  /** `InvalidateCache`: the IDs of the given refs, the locations, and the target last. */
  function Trail(lib: Library, conn: Conn, url: URL, h: Header, refs: seq<Ref>, faults: Faults): seq<string> {
    LocationTrail(conn, Ids(refs), LocationKeys(lib, url, h), faults) + [url.key]
  }

  // ----- Handlers -----

  function TimedReply(lib: Library, reply: Reply, end: Time): Reply {
    reply.(header := FixDate(lib, reply.header, end))
  }

  /** `make504Response` */
  const GATEWAY_TIMEOUT: Reply :=
    Reply(504, map["Cache-Control" := ["no-cache"], "Content-Length" := ["0"],
                   STATUS := ["BYPASS"], "Connection" := ["close"]], "")

  /** `handleUnrecognizedMethod` */
  function Unrecognized(lib: Library, conn: Conn, req: Request, upstream: Option<Reply>, clock: Clock,
                        faults: Faults): Verdict {
    match upstream
    case None => Verdict(Failed, Keep, None, None)
    case Some(resp) =>
      var effect :=
        if IsUnsafe(req.verb) && IsNonError(resp.status) then
          Erase(Trail(lib, conn, req.url, resp.header, RefsOrNil(conn, req.url.key, faults), faults))
        else Keep;
      Verdict(Returned(Stamped(resp, BYPASS)), effect, Some(Exchange(req, resp, clock.start, clock.end)), None)
  }

  /** `handleCacheMiss` */
  function Miss(lib: Library, number: nat, req: Request, refs: seq<Ref>, index: int,
                upstream: Option<Reply>, clock: Clock): Verdict
  {
    var ccReq := DirectivesOf(req.header);
    if CC.OnlyIfCached(ccReq) then Verdict(Returned(GATEWAY_TIMEOUT), Keep, None, None)
    else
      match upstream
      case None => Verdict(Failed, Keep, None, None)
      case Some(reply) =>
        var resp := TimedReply(lib, reply, clock.end);
        var exchange := Some(Exchange(req, reply, clock.start, clock.end));
        if CanStore(resp, ccReq, DirectivesOf(resp.header)) then
          Verdict(Returned(Stamped(resp.(header := EndToEnd(resp.header)), MISS)),
                  StoreEffect(lib, req, resp, [number], refs, index, clock.start, clock.end), exchange, None)
        else Verdict(Returned(Stamped(resp, MISS)), Keep, exchange, None)
  }

  /** Header fields a qualified no-cache withholds, as they are named in the header map. */
  function Withheld(ccResp: CC.Directives): set<string> {
    if CC.NoCacheQualified(ccResp) then set f | f in Csv.Split(CC.NoCacheFields(ccResp)) :: CanonicalKey(f) else {}
  }

  /** `serveFromCache` */
  function Served(stored: Entry, f: Freshness, ccResp: CC.Directives, now: Time): Reply {
    var stripped := stored.data.header - Withheld(ccResp);
    stored.data.(header := Stamp(Set(stripped, "Age", Decimal(AgeSeconds(f.age, now))), HIT))
  }

  /** Which way `handleCacheHit` goes. */
  datatype Route = ServeHit | ServeStale | Revalidate

  function RouteOf(f: Freshness, ccReq: CC.Directives, ccResp: CC.Directives, now: Time): Route {
    if !f.isStale && CC.Immutable(ccResp) && !CC.NoCache(ccReq) then ServeHit
    else if (f.isStale && CC.MustRevalidate(ccResp)) || CC.NoCacheUnqualified(ccResp) then Revalidate
    else if CC.OnlyIfCached(ccReq) || (!f.isStale && !CC.NoCache(ccReq)) then ServeHit
    else
      match CC.StaleWhileRevalidate(ccResp)
      case None => Revalidate
      case Some(swr) =>
        if f.isStale && 0 <= Wrap64(Adjusted(f.age, now) - f.usefulLife) < swr then ServeStale else Revalidate
  }

  /** A stored reply freshened by a 304. */
  function Freshened(stored: Entry, resp: Reply): Reply {
    stored.data.(header := Merge(stored.data.header, resp.header))
  }

  /** What a validation returns, and the stamp it gets. */
  function Ending(req: Request, stored: Entry, f: Freshness, ccReq: CC.Directives, resp: Reply, clock: Clock)
    : (Reply, CacheStatus)
  {
    var ccResp := DirectivesOf(resp.header);
    if req.verb == "GET" && resp.status == 304 then
      var merged := Freshened(stored, resp);
      (merged.(header := EndToEnd(merged.header)), REVALIDATED)
    else if StaleErrorAllowed(resp.status) && req.verb == "GET" && CanStaleOnError(f, ccResp, clock.policy) then
      (stored.data.(header := Set(stored.data.header, "Age", Decimal(AgeSeconds(f.age, clock.served)))), STALE)
    else if CanStore(resp, ccReq, ccResp) then (resp.(header := EndToEnd(resp.header)), MISS)
    else (resp, BYPASS)
  }

  /** `HandleValidationResponse` for the reply `resp` (Date repaired) to the request `req`. */
  function Validation(lib: Library, conn: Conn, number: nat, req: Request, stored: Entry, f: Freshness,
                      ccReq: CC.Directives, refs: seq<Ref>, index: int, resp: Reply, clock: Clock,
                      faults: Faults): (Outcome, Effect)
  {
    var (reply, status) := Ending(req, stored, f, ccReq, resp, clock);
    var effect :=
      if status.REVALIDATED? then
        StoreEffect(lib, req, Freshened(stored, resp), stored.lineage + [number], refs, index, clock.start, clock.end)
      else if status.MISS? then StoreEffect(lib, req, resp, [number], refs, index, clock.start, clock.end)
      else if status.BYPASS? && IsUnsafe(req.verb) && IsNonError(resp.status) then
        Erase(Trail(lib, conn, req.url, resp.header, refs, faults))
      else Keep;
    (Returned(Stamped(reply, status)), effect)
  }

  /** The request round trip and the handling of its reply, foreground or background. */
  function Revalidated(lib: Library, conn: Conn, number: nat, req: Request, stored: Entry, f: Freshness,
                       ccReq: CC.Directives, refs: seq<Ref>, index: int,
                       upstream: Option<Reply>, clock: Clock, faults: Faults): Verdict
  {
    match upstream
    case None => Verdict(Failed, Keep, None, None)
    case Some(reply) =>
      var resp := TimedReply(lib, reply, clock.end);
      var (outcome, effect) := Validation(lib, conn, number, req, stored, f, ccReq, refs, index, resp, clock, faults);
      Verdict(outcome, effect, Some(Exchange(req, reply, clock.start, clock.end)), None)
  }

  /** `handleStaleWhileRevalidate`: the stale reply, and the job that shares its header. */
  function StaleAndJob(req: Request, stored: Entry, f: Freshness, ccReq: CC.Directives): Verdict {
    var stale := stored.(data := Stamped(stored.data, STALE));
    Verdict(Returned(stale.data), Keep, None, Some(Job(Conditional(req, stored.data.header), stale, f, ccReq)))
  }

  /** `handleCacheHit` */
  function Hit(lib: Library, conn: Conn, number: nat, req: Request, stored: Entry, refs: seq<Ref>, index: int,
               upstream: Option<Reply>, clock: Clock, faults: Faults): Verdict
  {
    var ccReq := DirectivesOf(req.header);
    var ccResp := DirectivesOf(stored.data.header);
    var f := Calculate(lib, stored, ccReq, ccResp, clock);
    match RouteOf(f, ccReq, ccResp, clock.swr)
    case ServeHit => Verdict(Returned(Served(stored, f, ccResp, clock.served)), Keep, None, None)
    case ServeStale => StaleAndJob(req, stored, f, ccReq)
    case Revalidate =>
      Revalidated(lib, conn, number, Conditional(req, stored.data.header), stored, f, ccReq, refs, index,
                  upstream, clock, faults)
  }

  /** What `RoundTrip` finds in the backend for an understood request. */
  datatype Lookup =
    | Nothing                                             // no list, or an empty one
    | NoMatch(refs: seq<Ref>)                             // sorted list, no ref matches
    | Unreadable(refs: seq<Ref>, index: nat)              // a ref matches, its entry cannot be read
    | Found(entry: Entry, refs: seq<Ref>, index: nat)

  function Find(lib: Library, conn: Conn, req: Request, faults: Faults): Lookup {
    var refs := RefsOrNil(conn, req.url.key, faults);
    if refs == [] then Nothing
    else
      var sorted := lib.sortRefs(refs);
      var i := Vary.FirstMatch(lib, sorted, req.header);
      if i == |sorted| then NoMatch(sorted)
      else
        match GetEntry(conn, sorted[i].id, faults)
        case None => Unreadable(sorted, i)
        case Some(entry) => Found(entry, sorted, i)
  }

  /** The refs handed on, in sorted order. */
  function RefsOf(l: Lookup): seq<Ref> {
    if l.Nothing? then [] else l.refs
  }

  /** The index of the selected ref, or -1. */
  function IndexOf(l: Lookup): int {
    if l.Found? || l.Unreadable? then l.index else -1
  }

  /** What `RoundTrip` does with the lookup. */
  function Dispatch(lib: Library, conn: Conn, number: nat, req: Request, lookup: Lookup,
                    upstream: Option<Reply>, clock: Clock, faults: Faults): Verdict
  {
    if lookup.Found? then Hit(lib, conn, number, req, lookup.entry, lookup.refs, lookup.index, upstream, clock, faults)
    else Miss(lib, number, req, RefsOf(lookup), IndexOf(lookup), upstream, clock)
  }

  /** `RoundTrip` */
  function RoundTrip(lib: Library, conn: Conn, number: nat, req: Request, upstream: Option<Reply>, clock: Clock,
                     faults: Faults): Verdict {
    if !IsUnderstood(req) then Unrecognized(lib, conn, req, upstream, clock, faults)
    else Dispatch(lib, conn, number, req, Find(lib, conn, req, faults), upstream, clock, faults)
  }

  /** `backgroundRevalidate`: no refs are passed on, so index 0 of an empty list. An upstream
      error stands for a timeout too. */
  function BackgroundRevalidate(lib: Library, conn: Conn, number: nat, job: Job, upstream: Option<Reply>, clock: Clock,
                                faults: Faults): Verdict {
    Revalidated(lib, conn, number, job.req, job.stored, job.freshness, job.ccReq, [], 0, upstream, clock, faults)
  }

  // ----- Steps and runs -----

  datatype Step =
    | Foreground(req: Request, upstream: Option<Reply>, clock: Clock, faults: Faults)
    | Background(job: nat, upstream: Option<Reply>, clock: Clock, faults: Faults)

  function VerdictOf(lib: Library, w: World, step: Step): Verdict
    requires step.Background? ==> step.job < |w.pending|
  {
    match step
    case Foreground(req, upstream, clock, faults) =>
      RoundTrip(lib, w.conn, |w.trace|, req, upstream, clock, faults)
    case Background(job, upstream, clock, faults) =>
      BackgroundRevalidate(lib, w.conn, |w.trace|, w.pending[job], upstream, clock, faults)
  }

  function Next(lib: Library, w: World, step: Step): World {
    if step.Background? && step.job >= |w.pending| then w
    else
      var v := VerdictOf(lib, w, step);
      var pending := if step.Background? then w.pending[..step.job] + w.pending[step.job + 1..] else w.pending;
      World(Apply(w.conn, v.effect, step.faults), pending + Listed(v.job), w.trace + Listed(v.exchange))
  }

  function Run(lib: Library, w: World, steps: seq<Step>): World
    decreases |steps|
  {
    if steps == [] then w else Next(lib, Run(lib, w, steps[..|steps| - 1]), steps[|steps| - 1])
  }
}
