/**
  What a step writes: exactly when an understood request stores, and which keys each kind of
  step can change.
 */
module Frame {
  import opened Base
  import opened Http
  import opened Protocol
  import opened Freshness
  import opened Service
  import Provenance
  import Vary
  import CC = CacheControl

  // ----- When -----

  /** The step stores what it should: the reply is REVALIDATED, or MISS and admitted. */
  ghost predicate StoresRightly(lib: Library, v: Verdict) {
    v.effect.Store? <==>
      v.outcome.Returned? && v.exchange.Some? &&
      (Shows(v.outcome.reply, REVALIDATED) ||
       (Shows(v.outcome.reply, MISS) && Provenance.Admitted(lib, v.exchange.value)))
  }

  lemma MissStores(lib: Library, number: nat, req: Request, refs: seq<Ref>, index: int, upstream: Option<Reply>,
                   clock: Clock)
    ensures StoresRightly(lib, Miss(lib, number, req, refs, index, upstream, clock))
  {
    var v := Miss(lib, number, req, refs, index, upstream, clock);
    if v.exchange.Some? {
      var resp := TimedReply(lib, upstream.value, clock.end);
      StampShows(resp, MISS);
      StampShows(resp.(header := EndToEnd(resp.header)), MISS);
      if Shows(v.outcome.reply, REVALIDATED) {
        ShowsOne(v.outcome.reply, REVALIDATED, MISS);
      }
    }
  }

  lemma ValidationStores(lib: Library, conn: Conn, number: nat, req: Request, stored: Entry, f: Freshness,
                         ccReq: CC.Directives, refs: seq<Ref>, index: int, upstream: Option<Reply>, clock: Clock,
                         faults: Faults)
    requires ccReq == DirectivesOf(req.header)
    ensures StoresRightly(lib, Revalidated(lib, conn, number, req, stored, f, ccReq, refs, index, upstream, clock,
                                           faults))
  {
    var v := Revalidated(lib, conn, number, req, stored, f, ccReq, refs, index, upstream, clock, faults);
    if upstream.Some? {
      var resp := TimedReply(lib, upstream.value, clock.end);
      var (source, s) := Ending(req, stored, f, ccReq, resp, clock);
      StampShows(source, s);
      if Shows(v.outcome.reply, REVALIDATED) {
        ShowsOne(v.outcome.reply, REVALIDATED, s);
      }
      if Shows(v.outcome.reply, MISS) {
        ShowsOne(v.outcome.reply, MISS, s);
      }
    }
  }

  lemma HitStores(lib: Library, conn: Conn, number: nat, req: Request, stored: Entry, refs: seq<Ref>, index: int,
                  upstream: Option<Reply>, clock: Clock, faults: Faults)
    ensures StoresRightly(lib, Hit(lib, conn, number, req, stored, refs, index, upstream, clock, faults))
  {
    var ccReq, ccResp := DirectivesOf(req.header), DirectivesOf(stored.data.header);
    var f := FreshnessFor(lib, stored, req, clock);
    if RouteOf(f, ccReq, ccResp, clock.swr).Revalidate? {
      Provenance.ConditionalOk(req, stored.data.header);
      ValidationStores(lib, conn, number, Conditional(req, stored.data.header), stored, f, ccReq, refs, index,
                       upstream, clock, faults);
    }
  }

  /** An understood request writes to the store exactly when its reply is REVALIDATED, or is MISS
      and the upstream reply may be stored. */
  lemma StoresExactly(lib: Library, conn: Conn, number: nat, req: Request, upstream: Option<Reply>, clock: Clock,
                      faults: Faults)
    requires IsUnderstood(req)
    ensures StoresRightly(lib, RoundTrip(lib, conn, number, req, upstream, clock, faults))
  {
    var l := Find(lib, conn, req, faults);
    if l.Found? {
      HitStores(lib, conn, number, req, l.entry, l.refs, l.index, upstream, clock, faults);
    } else {
      MissStores(lib, number, req, RefsOf(l), IndexOf(l), upstream, clock);
    }
  }

  // ----- Where -----

  /** A key of `u`: the URL key itself or one of its response IDs. */
  ghost predicate OwnKey(lib: Library, u: string, k: string) {
    k == u || exists m: map<string, string> :: k == Vary.VaryKey(lib, u, m)
  }

  /** The effect writes only keys of `u`. */
  ghost predicate WritesOwn(lib: Library, eff: Effect, u: string) {
    !eff.Erase? && (eff.Store? ==> eff.key == u && OwnKey(lib, u, eff.entry.id))
  }

  lemma StoreWritesOwn(lib: Library, req: Request, resp: Reply, lineage: seq<nat>, refs: seq<Ref>, index: int,
                       start: Time, end: Time)
    ensures WritesOwn(lib, StoreEffect(lib, req, resp, lineage, refs, index, start, end), req.url.key)
  {
    var eff := StoreEffect(lib, req, resp, lineage, refs, index, start, end);
    assert eff.entry.id == Vary.VaryKey(lib, req.url.key, Vary.Resolve(lib, VaryOf(eff.entry.data.header), req.header));
  }

  lemma MissWritesOwn(lib: Library, number: nat, req: Request, refs: seq<Ref>, index: int, upstream: Option<Reply>,
                      clock: Clock)
    ensures WritesOwn(lib, Miss(lib, number, req, refs, index, upstream, clock).effect, req.url.key)
  {
    if upstream.Some? {
      StoreWritesOwn(lib, req, TimedReply(lib, upstream.value, clock.end), [number], refs, index, clock.start,
                     clock.end);
    }
  }

  lemma ValidationWritesOwn(lib: Library, conn: Conn, number: nat, req: Request, stored: Entry, f: Freshness,
                            ccReq: CC.Directives, refs: seq<Ref>, index: int, upstream: Option<Reply>, clock: Clock,
                            faults: Faults)
    requires req.verb == "GET"
    ensures WritesOwn(lib, Revalidated(lib, conn, number, req, stored, f, ccReq, refs, index, upstream, clock,
                                       faults).effect,
                      req.url.key)
  {
    Provenance.ValidationEffect(lib, conn, number, req, stored, f, ccReq, refs, index, upstream, clock, faults);
    if upstream.Some? {
      var (data, lineage) := Provenance.Written(lib, number, req, stored, upstream.value, clock);
      StoreWritesOwn(lib, req, data, lineage, refs, index, clock.start, clock.end);
    }
  }

  lemma DispatchWritesOwn(lib: Library, conn: Conn, number: nat, req: Request, l: Lookup, upstream: Option<Reply>,
                          clock: Clock, faults: Faults)
    requires IsUnderstood(req)
    ensures WritesOwn(lib, Dispatch(lib, conn, number, req, l, upstream, clock, faults).effect, req.url.key)
  {
    if l.Found? {
      var f := FreshnessFor(lib, l.entry, req, clock);
      Provenance.ConditionalOk(req, l.entry.data.header);
      ValidationWritesOwn(lib, conn, number, Conditional(req, l.entry.data.header), l.entry, f,
                          DirectivesOf(req.header),
                          l.refs, l.index, upstream, clock, faults);
    } else {
      MissWritesOwn(lib, number, req, RefsOf(l), IndexOf(l), upstream, clock);
    }
  }

  /** The key has the same blob, or none, in both stores. */
  predicate Untouched(before: Conn, after: Conn, k: string) {
    (k in before <==> k in after) && (k in before ==> after[k] == before[k])
  }

  lemma OwnUntouched(lib: Library, conn: Conn, eff: Effect, faults: Faults, u: string, k: string)
    requires WritesOwn(lib, eff, u) && !OwnKey(lib, u, k)
    ensures Untouched(conn, Apply(conn, eff, faults), k)
  {
  }

  /** Frame of a GET: whatever happens, keys of other URLs keep their blobs. */
  lemma GetFrame(lib: Library, conn: Conn, number: nat, req: Request, upstream: Option<Reply>, clock: Clock,
                 faults: Faults, k: string)
    requires IsUnderstood(req) && !OwnKey(lib, req.url.key, k)
    ensures Untouched(conn, Apply(conn, RoundTrip(lib, conn, number, req, upstream, clock, faults).effect, faults), k)
  {
    var l := Find(lib, conn, req, faults);
    DispatchWritesOwn(lib, conn, number, req, l, upstream, clock, faults);
    OwnUntouched(lib, conn, Dispatch(lib, conn, number, req, l, upstream, clock, faults).effect, faults, req.url.key,
                 k);
  }

  /** Frame of a background revalidation: the same. */
  lemma BackgroundFrame(lib: Library, conn: Conn, number: nat, job: Job, upstream: Option<Reply>, clock: Clock,
                        faults: Faults, k: string)
    requires IsUnderstood(job.req) && !OwnKey(lib, job.req.url.key, k)
    ensures Untouched(conn, Apply(conn, BackgroundRevalidate(lib, conn, number, job, upstream, clock, faults).effect,
                                  faults), k)
  {
    ValidationWritesOwn(lib, conn, number, job.req, job.stored, job.freshness, job.ccReq, [], 0, upstream, clock,
                        faults);
    OwnUntouched(lib, conn, BackgroundRevalidate(lib, conn, number, job, upstream, clock, faults).effect, faults,
                 job.req.url.key, k);
  }

  /** Frame of any other request: the store changes only for an unsafe method with a 2xx or 3xx
      reply, and then by losing exactly the deletable keys of the trail. */
  lemma OtherFrame(lib: Library, conn: Conn, number: nat, req: Request, upstream: Option<Reply>, clock: Clock,
                   faults: Faults)
    requires !IsUnderstood(req)
    ensures var conn' := Apply(conn, RoundTrip(lib, conn, number, req, upstream, clock, faults).effect, faults);
            if IsUnsafe(req.verb) && upstream.Some? && IsNonError(upstream.value.status) then
              var trail := Trail(lib, conn, req.url, upstream.value.header, RefsOrNil(conn, req.url.key, faults),
                                 faults);
              forall k :: if k in trail && k !in faults.undeletable then k !in conn' else Untouched(conn, conn', k)
            else conn' == conn
  {
  }

  // ----- Reads that fail -----

  /** The same failures of writes and deletions, with every read successful. */
  function Readable(faults: Faults): Faults {
    faults.(unreadable := {})
  }

  lemma FailedRead(conn: Conn, key: string, faults: Faults)
    ensures GetRefs(conn, key, faults) == GetRefs(conn - faults.unreadable, key, Readable(faults))
    ensures GetEntry(conn, key, faults) == GetEntry(conn - faults.unreadable, key, Readable(faults))
  {
  }

  lemma {:induction false} FailedTrail(conn: Conn, gone: seq<string>, locations: seq<string>, faults: Faults)
    ensures LocationTrail(conn, gone, locations, faults)
            == LocationTrail(conn - faults.unreadable, gone, locations, Readable(faults))
    decreases |locations|
  {
    if locations != [] {
      var left := Without(conn, gone, faults);
      assert left - faults.unreadable == Without(conn - faults.unreadable, gone, Readable(faults));
      FailedRead(left, locations[0], faults);
      FailedTrail(conn, gone + Ids(RefsOrNil(left, locations[0], faults)) + [locations[0]], locations[1..], faults);
    }
  }

  lemma FailedTrails(lib: Library, conn: Conn, url: URL, h: Header, refs: seq<Ref>, faults: Faults)
    ensures Trail(lib, conn, url, h, refs, faults)
            == Trail(lib, conn - faults.unreadable, url, h, refs, Readable(faults))
  {
    FailedTrail(conn, Ids(refs), LocationKeys(lib, url, h), faults);
  }

  /** A key whose read fails counts as an absent one, list or entry, in whatever a step decides. */
  lemma UnreadableIsAbsent(lib: Library, conn: Conn, number: nat, req: Request, upstream: Option<Reply>, clock: Clock,
                           faults: Faults)
    ensures RoundTrip(lib, conn, number, req, upstream, clock, faults)
            == RoundTrip(lib, conn - faults.unreadable, number, req, upstream, clock, Readable(faults))
  {
    FailedRead(conn, req.url.key, faults);
    if !IsUnderstood(req) {
      if upstream.Some? {
        FailedTrails(lib, conn, req.url, upstream.value.header, RefsOrNil(conn, req.url.key, faults), faults);
      }
    } else {
      FailedFind(lib, conn, req, faults);
      var l := Find(lib, conn, req, faults);
      if l.Found? {
        FailedHit(lib, conn, number, req, l.entry, l.refs, l.index, upstream, clock, faults);
      }
    }
  }

  lemma FailedFind(lib: Library, conn: Conn, req: Request, faults: Faults)
    ensures Find(lib, conn, req, faults) == Find(lib, conn - faults.unreadable, req, Readable(faults))
  {
    FailedRead(conn, req.url.key, faults);
    var refs := RefsOrNil(conn, req.url.key, faults);
    if refs != [] {
      var sorted := lib.sortRefs(refs);
      var i := Vary.FirstMatch(lib, sorted, req.header);
      if i < |sorted| {
        FailedRead(conn, sorted[i].id, faults);
      }
    }
  }

  lemma FailedHit(lib: Library, conn: Conn, number: nat, req: Request, e: Entry, refs: seq<Ref>, index: int,
                  upstream: Option<Reply>, clock: Clock, faults: Faults)
    ensures Hit(lib, conn, number, req, e, refs, index, upstream, clock, faults)
            == Hit(lib, conn - faults.unreadable, number, req, e, refs, index, upstream, clock, Readable(faults))
  {
    var ccReq, ccResp := DirectivesOf(req.header), DirectivesOf(e.data.header);
    var f := FreshnessFor(lib, e, req, clock);
    match RouteOf(f, ccReq, ccResp, clock.swr)
    case ServeHit =>
    case ServeStale =>
    case Revalidate =>
      FailedValidation(lib, conn, number, Conditional(req, e.data.header), e, f, ccReq, refs, index, upstream, clock,
                       faults);
  }

  lemma FailedValidation(lib: Library, conn: Conn, number: nat, req: Request, e: Entry, f: Freshness,
                         ccReq: CC.Directives, refs: seq<Ref>, index: int, upstream: Option<Reply>, clock: Clock,
                         faults: Faults)
    ensures Revalidated(lib, conn, number, req, e, f, ccReq, refs, index, upstream, clock, faults)
            == Revalidated(lib, conn - faults.unreadable, number, req, e, f, ccReq, refs, index, upstream, clock,
                           Readable(faults))
  {
    if upstream.Some? {
      FailedTrails(lib, conn, req.url, TimedReply(lib, upstream.value, clock.end).header, refs, faults);
    }
  }
}
