/**
  The transport itself, in the form of the code: an object whose handlers read and write the
  backend step by step. Each method is proved to do what the protocol's verdict says, and
  `RoundTrip` and `BackgroundRevalidate` to be steps that keep provenance.
 */
module Transport {
  import opened Base
  import opened Http
  import opened Protocol
  import opened Freshness
  import Csv
  import Invalidation
  import CC = CacheControl
  import Provenance
  import Vary

  /** `w'` is `w` after the verdict was carried out. */
  predicate Follows(w: World, v: Verdict, faults: Faults, w': World) {
    w'.conn == Apply(w.conn, v.effect, faults) &&
    w'.pending == w.pending + Listed(v.job) &&
    w'.trace == w.trace + Listed(v.exchange)
  }

  lemma Undone(conn: Conn, faults: Faults)
    ensures Apply(conn, Keep, faults) == conn
  {
  }

  lemma NoneFound(lib: Library, refs: seq<Ref>, sorted: seq<Ref>, h: Header)
    requires sorted == lib.sortRefs(refs) && Vary.PermutesRefs(lib)
    requires !exists r :: r in refs && Vary.Matches(lib, r, h)
    ensures Vary.FirstMatch(lib, sorted, h) == |sorted|
  {
    Vary.SamePermutation(refs, sorted);
    forall j | 0 <= j < |sorted| ensures !Vary.Matches(lib, sorted[j], h) {
      assert sorted[j] in sorted;
    }
  }

  /** What the lookup is when the scan selects position `i` of the sorted list. */
  lemma FindAt(lib: Library, conn: Conn, req: Request, faults: Faults, refs: seq<Ref>, sorted: seq<Ref>, i: nat)
    requires GetRefs(conn, req.url.key, faults) == Some(refs) && refs != [] && sorted == lib.sortRefs(refs)
    requires i == Vary.FirstMatch(lib, sorted, req.header)
    ensures Find(lib, conn, req, faults) ==
            if i == |sorted| then NoMatch(sorted)
            else if GetEntry(conn, sorted[i].id, faults).None? then Unreadable(sorted, i)
            else Found(GetEntry(conn, sorted[i].id, faults).value, sorted, i)
  {
  }

  class Transport {
    const lib: Library
    var conn: Conn
    var pending: seq<Job>
    /** History: the upstream exchanges so far. */
    var trace: seq<Exchange>

    constructor (lib: Library)
      ensures this.lib == lib && State() == INIT
    {
      this.lib := lib;
      conn, pending, trace := map[], [], [];
    }

    ghost function State(): World
      reads this
    {
      World(conn, pending, trace)
    }

    // ----- The backend -----

    method Write(key: string, blob: Blob, faults: Faults)
      modifies this`conn
      ensures conn == if key in faults.unwritable then old(conn) else old(conn)[key := blob]
    {
      if key !in faults.unwritable {
        conn := conn[key := blob];
      }
    }

    method Delete(key: string, faults: Faults)
      modifies this`conn
      ensures conn == if key in faults.undeletable then old(conn) else old(conn) - {key}
    {
      if key !in faults.undeletable {
        conn := conn - {key};
      }
    }

    // ----- internal/responsestorerer.go -----

    method StoreResponse(req: Request, resp: Reply, lineage: seq<nat>, refs: seq<Ref>, index: int,
                         start: Time, end: Time, faults: Faults) returns (resp': Reply)
      modifies this`conn
      ensures conn == Apply(old(conn), StoreEffect(lib, req, resp, lineage, refs, index, start, end), faults)
      ensures resp' == resp.(header := EndToEnd(resp.header))
    {
      var header := RemoveHopByHopHeaders(resp.header);
      resp' := resp.(header := header);
      var vary := VaryOf(header);
      var resolved := Vary.NormalizeVaryHeader(lib, vary, req.header);
      var id := Vary.VaryKey(lib, req.url.key, resolved);
      Write(id, Stored(Entry(id, resp', start, end, lineage)), faults);
      var ref := Ref(id, vary, resolved, DateOf(lib, header));
      var refs' := refs;
      if index < 0 || index >= |refs'| {
        refs' := refs' + [ref];
      } else {
        refs' := refs'[index := ref];
      }
      Write(req.url.key, Refs(refs'), faults);
    }

    // ----- internal/cacheinvalidator.go -----

    /** The deletions issued so far: the first of each key asked for, in the order asked, and
        what they leave of the store. */
    static ghost predicate Issued(before: Conn, conn: Conn, calls: seq<string>, asked: seq<string>, faults: Faults) {
      calls == Invalidation.Distinct(asked) && conn == Without(before, asked, faults)
    }

    /** The closure `del`: a key is deleted unless it was before. */
    method DeleteOnce(key: string, calls: seq<string>, faults: Faults, ghost before: Conn, ghost asked: seq<string>)
      returns (calls': seq<string>)
      requires Issued(before, conn, calls, asked, faults)
      modifies this`conn
      ensures Issued(before, conn, calls', asked + [key], faults)
    {
      calls' := calls;
      if key !in calls {
        Delete(key, faults);
        calls' := calls + [key];
      }
      assert (asked + [key])[..|asked|] == asked;
      assert (set k | k in asked + [key]) == (set k | k in asked) + {key};
    }

    method DeleteIds(refs: seq<Ref>, calls: seq<string>, faults: Faults, ghost before: Conn, ghost asked: seq<string>)
      returns (calls': seq<string>)
      requires Issued(before, conn, calls, asked, faults)
      modifies this`conn
      ensures Issued(before, conn, calls', asked + Ids(refs), faults)
    {
      calls' := calls;
      assert asked + Ids(refs)[..0] == asked;
      for i := 0 to |refs|
        invariant Issued(before, conn, calls', asked + Ids(refs)[..i], faults)
      {
        calls' := DeleteOnce(refs[i].id, calls', faults, before, asked + Ids(refs)[..i]);
        assert asked + Ids(refs)[..i] + [refs[i].id] == asked + Ids(refs)[..i + 1];
      }
      assert Ids(refs)[..|refs|] == Ids(refs);
    }

    /** `InvalidateCache`: every key the trail names is deleted, each with one call, in the order
        of the trail; from refs as the callers read them, IDs before their URL key. */
    method InvalidateCache(url: URL, header: Header, refs: seq<Ref>, faults: Faults) returns (calls: seq<string>)
      modifies this`conn
      ensures conn == Apply(old(conn), Erase(Trail(lib, old(conn), url, header, refs, faults)), faults)
      ensures calls == Invalidation.Distinct(Trail(lib, old(conn), url, header, refs, faults))
      ensures forall i, j :: 0 <= i < j < |calls| ==> calls[i] != calls[j]
      ensures Invalidation.ListsMarked(old(conn)) && Invalidation.Separated(url.key) &&
              Invalidation.AllSeparated(LocationKeys(lib, url, header)) &&
                refs == RefsOrNil(old(conn), url.key, faults) ==>
                Invalidation.IdsFirst(old(conn), calls, faults)
    {
      ghost var before := conn;
      calls := DeleteIds(refs, [], faults, before, []);
      ghost var asked := Ids(refs);
      assert [] + Ids(refs) == asked;
      var locations := LocationKeys(lib, url, header);
      for i := 0 to |locations|
        invariant Issued(before, conn, calls, asked, faults)
        invariant LocationTrail(before, Ids(refs), locations, faults)
                  == LocationTrail(before, asked, locations[i..], faults)
      {
        var found := RefsOrNil(conn, locations[i], faults);
        calls := DeleteIds(found, calls, faults, before, asked);
        calls := DeleteOnce(locations[i], calls, faults, before, asked + Ids(found));
        assert locations[i..][1..] == locations[i + 1..];
        asked := asked + Ids(found) + [locations[i]];
      }
      assert locations[|locations|..] == [];
      calls := DeleteOnce(url.key, calls, faults, before, asked);
      Invalidation.DistinctOnce(Trail(lib, before, url, header, refs, faults));
      if Invalidation.ListsMarked(before) && Invalidation.Separated(url.key) &&
         Invalidation.AllSeparated(locations) && refs == RefsOrNil(before, url.key, faults) {
        Invalidation.DeletionsExact(lib, before, url, header, faults);
      }
    }

    // ----- internal/validationresponsehandler.go -----

    /** The end of `HandleValidationResponse`: nothing is stored, an unsafe success invalidates. */
    method Refuse(req: Request, resp: Reply, refs: seq<Ref>, faults: Faults)
      modifies this`conn
      ensures conn == Apply(old(conn), if IsUnsafe(req.verb) && IsNonError(resp.status)
                                       then Erase(Trail(lib, old(conn), req.url, resp.header, refs, faults)) else Keep,
                                       faults)
    {
      if IsUnsafe(req.verb) && IsNonError(resp.status) {
        var _ := InvalidateCache(req.url, resp.header, refs, faults);
      }
    }

    method HandleValidationResponse(req: Request, stored: Entry, f: Freshness, ccReq: CC.Directives, refs: seq<Ref>,
                                    index: int, resp: Reply, number: nat, clock: Clock,
                                    faults: Faults) returns (o: Outcome)
      modifies this`conn
      ensures var (outcome, effect) :=
                Validation(lib, old(conn), number, req, stored, f, ccReq, refs, index, resp, clock, faults);
              o == outcome && conn == Apply(old(conn), effect, faults)
    {
      Undone(conn, faults);
      if req.verb == "GET" && resp.status == 304 {
        var header := MergeResponseHeaders(stored.data.header, resp.header);
        var merged := StoreResponse(req, stored.data.(header := header), stored.lineage + [number], refs, index,
                                    clock.start, clock.end, faults);
        return Returned(Stamped(merged, REVALIDATED));
      }
      if StaleErrorAllowed(resp.status) && req.verb == "GET" {
        if CanStaleOnError(f, DirectivesOf(resp.header), clock.policy) {
          var header := Set(stored.data.header, "Age", Decimal(AgeSeconds(f.age, clock.served)));
          return Returned(Stamped(stored.data.(header := header), STALE));
        }
      }
      var ccResp := DirectivesOf(resp.header);
      if CanStore(resp, ccReq, ccResp) {
        var kept := StoreResponse(req, resp, [number], refs, index, clock.start, clock.end, faults);
        return Returned(Stamped(kept, MISS));
      }
      Refuse(req, resp, refs, faults);
      return Returned(Stamped(resp, BYPASS));
    }

    // ----- roundtripper.go -----

    method RoundTripTimed(req: Request, upstream: Option<Reply>, clock: Clock) returns (resp: Option<Reply>)
      modifies this`trace
      ensures resp.Some? <==> upstream.Some?
      ensures resp.Some? ==> resp.value == TimedReply(lib, upstream.value, clock.end) &&
                             trace == old(trace) + [Exchange(req, upstream.value, clock.start, clock.end)]
      ensures resp.None? ==> trace == old(trace)
    {
      match upstream
      case None => resp := None;
      case Some(reply) =>
        resp := Some(reply.(header := FixDate(lib, reply.header, clock.end)));
        trace := trace + [Exchange(req, reply, clock.start, clock.end)];
    }

    method HandleUnrecognizedMethod(req: Request, upstream: Option<Reply>, clock: Clock,
                                    faults: Faults) returns (o: Outcome)
      modifies this`conn, this`trace
      ensures var v := Unrecognized(lib, old(conn), req, upstream, clock, faults);
              o == v.outcome && Follows(old(State()), v, faults, State())
    {
      Undone(conn, faults);
      if upstream.None? {
        return Failed;
      }
      var resp := upstream.value;
      trace := trace + [Exchange(req, resp, clock.start, clock.end)];
      if IsUnsafe(req.verb) && IsNonError(resp.status) {
        var refs := RefsOrNil(conn, req.url.key, faults);
        var _ := InvalidateCache(req.url, resp.header, refs, faults);
      }
      return Returned(Stamped(resp, BYPASS));
    }

    method HandleCacheMiss(req: Request, refs: seq<Ref>, index: int, upstream: Option<Reply>, clock: Clock,
                           faults: Faults)
      returns (o: Outcome)
      modifies this`conn, this`trace
      ensures var v := Miss(lib, |old(trace)|, req, refs, index, upstream, clock);
              o == v.outcome && Follows(old(State()), v, faults, State())
    {
      Undone(conn, faults);
      var ccReq := DirectivesOf(req.header);
      if CC.OnlyIfCached(ccReq) {
        return Returned(GATEWAY_TIMEOUT);
      }
      var number := |trace|;
      var timed := RoundTripTimed(req, upstream, clock);
      if timed.None? {
        return Failed;
      }
      var resp := timed.value;
      if CanStore(resp, ccReq, DirectivesOf(resp.header)) {
        resp := StoreResponse(req, resp, [number], refs, index, clock.start, clock.end, faults);
      }
      return Returned(Stamped(resp, MISS));
    }

    /** The withheld fields are deleted one by one from the reply, not from the store. */
    method ServeFromCache(stored: Entry, f: Freshness, ccResp: CC.Directives, now: Time) returns (r: Reply)
      ensures r == Served(stored, f, ccResp, now)
    {
      var header := stored.data.header;
      if CC.NoCacheQualified(ccResp) {
        var fields := Csv.TrimmedCSV(CC.NoCacheFields(ccResp));
        for i := 0 to |fields|
          invariant header == stored.data.header - (set f | f in fields[..i] :: CanonicalKey(f))
        {
          header := header - {CanonicalKey(fields[i])};
          assert fields[..i + 1] == fields[..i] + [fields[i]];
        }
        assert fields[..|fields|] == fields;
      }
      header := Set(header, "Age", Decimal(AgeSeconds(f.age, now)));
      r := stored.data.(header := Stamp(header, HIT));
    }

    /** Revalidation in the foreground and in the background. */
    method Revalidate(req: Request, stored: Entry, f: Freshness, ccReq: CC.Directives, refs: seq<Ref>, index: int,
                      upstream: Option<Reply>, clock: Clock, faults: Faults) returns (o: Outcome)
      modifies this`conn, this`trace
      ensures var v := Revalidated(lib, old(conn), |old(trace)|, req, stored, f, ccReq, refs, index, upstream, clock,
                                   faults);
              o == v.outcome && Follows(old(State()), v, faults, State())
    {
      Undone(conn, faults);
      var number := |trace|;
      var timed := RoundTripTimed(req, upstream, clock);
      if timed.None? {
        return Failed;
      }
      o := HandleValidationResponse(req, stored, f, ccReq, refs, index, timed.value, number, clock, faults);
    }

    method HandleStaleWhileRevalidate(req: Request, stored: Entry, f: Freshness, ccReq: CC.Directives, faults: Faults)
      returns (o: Outcome)
      modifies this`pending
      ensures var v := StaleAndJob(req, stored, f, ccReq);
              o == v.outcome && Follows(old(State()), v, faults, State())
    {
      var req2 := Conditional(req, stored.data.header);
      var stale := stored.(data := Stamped(stored.data, STALE));
      pending := pending + [Job(req2, stale, f, ccReq)];
      return Returned(stale.data);
    }

    /** The branches of `handleCacheHit`, in their order, up to the label `revalidate`. */
    method ChooseRoute(f: Freshness, ccReq: CC.Directives, ccResp: CC.Directives, now: Time) returns (route: Route)
      ensures route == RouteOf(f, ccReq, ccResp, now)
    {
      if !f.isStale && CC.Immutable(ccResp) && !CC.NoCache(ccReq) {
        return ServeHit;
      }
      if (f.isStale && CC.MustRevalidate(ccResp)) || CC.NoCacheUnqualified(ccResp) {
        return Route.Revalidate;
      }
      if CC.OnlyIfCached(ccReq) || (!f.isStale && !CC.NoCache(ccReq)) {
        return ServeHit;
      }
      var swr := CC.StaleWhileRevalidate(ccResp);
      if f.isStale && swr.Some? {
        var staleFor := Wrap64(Adjusted(f.age, now) - f.usefulLife);
        if staleFor >= 0 && staleFor < swr.value {
          return ServeStale;
        }
      }
      return Route.Revalidate;
    }

    method HandleCacheHit(req: Request, stored: Entry, refs: seq<Ref>, index: int, upstream: Option<Reply>,
                          clock: Clock, faults: Faults)
      returns (o: Outcome)
      modifies this`conn, this`pending, this`trace
      ensures var v := Hit(lib, old(conn), |old(trace)|, req, stored, refs, index, upstream, clock, faults);
              o == v.outcome && Follows(old(State()), v, faults, State())
    {
      Undone(conn, faults);
      var ccReq := DirectivesOf(req.header);
      var ccResp := DirectivesOf(stored.data.header);
      var f := Calculate(lib, stored, ccReq, ccResp, clock);
      var route := ChooseRoute(f, ccReq, ccResp, clock.swr);
      match route {
        case ServeHit =>
          var r := ServeFromCache(stored, f, ccResp, clock.served);
          o := Returned(r);
        case ServeStale =>
          o := HandleStaleWhileRevalidate(req, stored, f, ccReq, faults);
        case Revalidate =>
          o := Revalidate(Conditional(req, stored.data.header), stored, f, ccReq, refs, index, upstream, clock, faults);
      }
    }

    /** A foreground request is one step of the protocol, and keeps provenance. */
    method RoundTrip(req: Request, upstream: Option<Reply>, clock: Clock, faults: Faults) returns (o: Outcome)
      requires Vary.PermutesRefs(lib)
      modifies this`conn, this`pending, this`trace
      ensures State() == Next(lib, old(State()), Foreground(req, upstream, clock, faults))
      ensures o == VerdictOf(lib, old(State()), Foreground(req, upstream, clock, faults)).outcome
      ensures Provenance.WorldOk(lib, old(State())) && '#' !in req.url.key ==> Provenance.WorldOk(lib, State())
    {
      ghost var step := Foreground(req, upstream, clock, faults);
      ghost var before := State();
      if !IsUnderstood(req) {
        o := HandleUnrecognizedMethod(req, upstream, clock, faults);
      } else {
        o := Answer(req, upstream, clock, faults);
      }
      if Provenance.WorldOk(lib, before) && '#' !in req.url.key {
        Provenance.NextOk(lib, before, step);
      }
    }

    /** The understood case: look up the list, sort it in place, match, and read the entry. */
    method Answer(req: Request, upstream: Option<Reply>, clock: Clock, faults: Faults) returns (o: Outcome)
      requires Vary.PermutesRefs(lib)
      modifies this`conn, this`pending, this`trace
      ensures var v := Dispatch(lib, old(conn), |old(trace)|, req, Find(lib, old(conn), req, faults), upstream, clock,
                                faults);
              o == v.outcome && Follows(old(State()), v, faults, State())
    {
      var refs := GetRefs(conn, req.url.key, faults);
      if refs.None? || |refs.value| == 0 {
        o := HandleCacheMiss(req, [], -1, upstream, clock, faults);
        return;
      }
      var list := refs.value;
      var entries := new Ref[|list|](i requires 0 <= i < |list| => list[i]);
      assert entries[..] == list;
      var index, found := Vary.VaryHeadersMatch(lib, entries, req.header);
      var sorted := entries[..];
      if !found {
        NoneFound(lib, list, sorted, req.header);
        FindAt(lib, conn, req, faults, list, sorted, |sorted|);
        o := HandleCacheMiss(req, sorted, -1, upstream, clock, faults);
        return;
      }
      FindAt(lib, conn, req, faults, list, sorted, index);
      var entry := GetEntry(conn, sorted[index].id, faults);
      if entry.None? {
        o := HandleCacheMiss(req, sorted, index, upstream, clock, faults);
        return;
      }
      o := HandleCacheHit(req, entry.value, sorted, index, upstream, clock, faults);
    }

    /** A background revalidation takes its job off the pending ones and is one step. */
    method BackgroundRevalidate(i: nat, upstream: Option<Reply>, clock: Clock, faults: Faults)
      requires i < |pending|
      modifies this`conn, this`pending, this`trace
      ensures State() == Next(lib, old(State()), Background(i, upstream, clock, faults))
      ensures Provenance.WorldOk(lib, old(State())) && Vary.PermutesRefs(lib) ==> Provenance.WorldOk(lib, State())
    {
      ghost var step := Background(i, upstream, clock, faults);
      ghost var before := State();
      var job := pending[i];
      pending := pending[..i] + pending[i + 1..];
      var _ := Revalidate(job.req, job.stored, job.freshness, job.ccReq, [], 0, upstream, clock, faults);
      if Provenance.WorldOk(lib, before) && Vary.PermutesRefs(lib) {
        Provenance.NextOk(lib, before, step);
      }
    }
  }
}
