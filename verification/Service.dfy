/**
  What a client receives: how stale an answer may be, which answers need the origin, and
  that the status stamped on a reply tells the truth about where it came from.
 */
module Service {
  import opened Base
  import opened Http
  import opened Protocol
  import opened Freshness
  import Csv
  import Origins
  import Provenance
  import Resurrection
  import Vary
  import CC = CacheControl

  // ----- Staleness -----

  /** The freshness verdict behind an answer from `e`. */
  function FreshnessFor(lib: Library, e: Entry, req: Request, clock: Clock): Freshness {
    Calculate(lib, e, DirectivesOf(req.header), DirectivesOf(e.data.header), clock)
  }

  /** The verdict answers the request without asking the origin. */
  predicate WithoutContact(v: Verdict) {
    v.outcome.Returned? && v.exchange.None?
  }

  /** An answer from the entry without contact is a hit or a stale-while-revalidate reply. */
  lemma HitWithoutContact(lib: Library, conn: Conn, number: nat, req: Request, e: Entry, refs: seq<Ref>, i: int,
                          upstream: Option<Reply>, clock: Clock, faults: Faults)
    ensures var v := Hit(lib, conn, number, req, e, refs, i, upstream, clock, faults);
            var route := RouteOf(FreshnessFor(lib, e, req, clock), DirectivesOf(req.header),
                                 DirectivesOf(e.data.header), clock.swr);
            (WithoutContact(v) <==> !route.Revalidate?) && (v.job.Some? <==> route.ServeStale?)
  {
  }

  /** How old an entry may be on the two routes that do not ask the origin. */
  lemma RouteBound(lib: Library, e: Entry, ccReq: CC.Directives, ccResp: CC.Directives, clock: Clock)
    requires !CC.OnlyIfCached(ccReq) && CC.MaxAge(ccReq) != Some(0)
    ensures var age, life := CurrentAge(lib, e, clock), UsefulLife(lib, e, ccReq, ccResp);
            match RouteOf(Calculate(lib, e, ccReq, ccResp, clock), ccReq, ccResp, clock.swr)
            case ServeHit => age.value < life + CC.MaxStale(ccReq)
            case ServeStale => CC.StaleWhileRevalidate(ccResp).Some? &&
              Adjusted(age, clock.swr) < life + CC.StaleWhileRevalidate(ccResp).value
            case Revalidate => true
  {
    var age, life := CurrentAge(lib, e, clock), UsefulLife(lib, e, ccReq, ccResp);
    var f := Calculate(lib, e, ccReq, ccResp, clock);
    match RouteOf(f, ccReq, ccResp, clock.swr)
    case ServeHit => FreshBound(age.value, life, MinFreshOf(ccReq), CC.MaxStale(ccReq));
    case ServeStale => SwrBound(Adjusted(age, clock.swr), life, CC.StaleWhileRevalidate(ccResp).value);
    case Revalidate =>
  }

  /** Bounded staleness. Unless the request says only-if-cached or max-age=0, a hit is younger
      than the lifetime plus the request's max-stale, and a reply served while revalidating is
      younger than the lifetime plus stale-while-revalidate, as exact sums. */
  lemma BoundedStaleness(lib: Library, conn: Conn, number: nat, req: Request, e: Entry, refs: seq<Ref>, i: int,
                         upstream: Option<Reply>, clock: Clock, faults: Faults)
    requires !CC.OnlyIfCached(DirectivesOf(req.header)) && CC.MaxAge(DirectivesOf(req.header)) != Some(0)
    ensures var v := Hit(lib, conn, number, req, e, refs, i, upstream, clock, faults);
            var ccReq, ccResp := DirectivesOf(req.header), DirectivesOf(e.data.header);
            var age, life := CurrentAge(lib, e, clock), UsefulLife(lib, e, ccReq, ccResp);
            WithoutContact(v) ==>
            && (v.job.None? ==> age.value < life + CC.MaxStale(ccReq))
            && (v.job.Some? ==> CC.StaleWhileRevalidate(ccResp).Some? &&
                                Adjusted(age, clock.swr) < life + CC.StaleWhileRevalidate(ccResp).value)
  {
    HitWithoutContact(lib, conn, number, req, e, refs, i, upstream, clock, faults);
    RouteBound(lib, e, DirectivesOf(req.header), DirectivesOf(e.data.header), clock);
  }

  /** The 64-bit staleness test never accepts more than the exact sum. */
  lemma SwrBound(age: Duration, life: Duration, swr: Duration)
    requires 0 <= life && 0 <= Wrap64(age - life) < swr
    ensures age < life + swr
  {
  }

  /** The same bound on the true age, whatever the Age field and the Date: where the sums fit, a
      hit is that young. When the bound itself fits and the Age field does not underflow, only
      then: an overflowing Age field (`Freshness.AgeOverflows`) and an ancient Date
      (`Freshness.AncientDate`) are served as fresh. */
  lemma HitTrulyFresh(lib: Library, conn: Conn, number: nat, req: Request, e: Entry, refs: seq<Ref>, i: int,
                      upstream: Option<Reply>, clock: Clock, faults: Faults)
    requires !CC.OnlyIfCached(DirectivesOf(req.header)) && CC.MaxAge(DirectivesOf(req.header)) != Some(0)
    requires var v := Hit(lib, conn, number, req, e, refs, i, upstream, clock, faults);
             WithoutContact(v) && v.job.None?
    ensures var ccReq := DirectivesOf(req.header);
            var bound := UsefulLife(lib, e, ccReq, DirectivesOf(e.data.header)) + CC.MaxStale(ccReq);
            && (FitsAt(lib, e, clock.resident) ==> ExactAgeAt(lib, e, clock.resident) < bound)
            && (bound <= MAX_DURATION + 1 && NoUnderflow(e.data.header, e.requestedAt, e.receivedAt) ==>
                  (ExactAgeAt(lib, e, clock.resident) < bound <==> FitsAt(lib, e, clock.resident)))
  {
    BoundedStaleness(lib, conn, number, req, e, refs, i, upstream, clock, faults);
    var ccReq := DirectivesOf(req.header);
    BoundCarries(lib, e, clock.resident, UsefulLife(lib, e, ccReq, DirectivesOf(e.data.header)) + CC.MaxStale(ccReq));
  }

  /** The readings of a step agree: the age is stamped with the reading it was computed at, and
      `now` is a later one, within 292 years of receipt. */
  predicate Steady(e: Entry, clock: Clock, now: Time) {
    e.receivedAt <= clock.resident == clock.stamped <= now <= e.receivedAt + MAX_DURATION
  }

  lemma AdjustedExact(lib: Library, e: Entry, clock: Clock, now: Time)
    requires Steady(e, clock, now)
    ensures var h := e.data.header;
            Adjusted(CurrentAge(lib, e, clock), now) == AgeValue(h, DateOf(lib, h), e.requestedAt, e.receivedAt, now)
  {
    AdjustedIsLater(e.data.header, DateOf(lib, e.data.header), e.requestedAt, e.receivedAt, clock.resident, now);
  }

  /** A reply given while revalidating obeys its bound in true age where the sums fit at the reading
      that decides, and, as above, only there. */
  lemma SwrTrulyBounded(lib: Library, conn: Conn, number: nat, req: Request, e: Entry, refs: seq<Ref>, i: int,
                        upstream: Option<Reply>, clock: Clock, faults: Faults)
    requires CC.MaxAge(DirectivesOf(req.header)) != Some(0) && Steady(e, clock, clock.swr)
    requires Hit(lib, conn, number, req, e, refs, i, upstream, clock, faults).job.Some?
    ensures var ccReq, ccResp := DirectivesOf(req.header), DirectivesOf(e.data.header);
            CC.StaleWhileRevalidate(ccResp).Some? &&
            var bound := UsefulLife(lib, e, ccReq, ccResp) + CC.StaleWhileRevalidate(ccResp).value;
            && (FitsAt(lib, e, clock.swr) ==> ExactAgeAt(lib, e, clock.swr) < bound)
            && (bound <= MAX_DURATION + 1 && NoUnderflow(e.data.header, e.requestedAt, e.receivedAt) ==>
                  (ExactAgeAt(lib, e, clock.swr) < bound <==> FitsAt(lib, e, clock.swr)))
  {
    HitWithoutContact(lib, conn, number, req, e, refs, i, upstream, clock, faults);
    var ccReq, ccResp := DirectivesOf(req.header), DirectivesOf(e.data.header);
    SwrRouteBound(lib, e, ccReq, ccResp, clock);
    AdjustedExact(lib, e, clock, clock.swr);
    BoundCarries(lib, e, clock.swr, UsefulLife(lib, e, ccReq, ccResp) + CC.StaleWhileRevalidate(ccResp).value);
  }

  lemma SwrRouteBound(lib: Library, e: Entry, ccReq: CC.Directives, ccResp: CC.Directives, clock: Clock)
    requires CC.MaxAge(ccReq) != Some(0)
    requires RouteOf(Calculate(lib, e, ccReq, ccResp, clock), ccReq, ccResp, clock.swr).ServeStale?
    ensures CC.StaleWhileRevalidate(ccResp).Some?
    ensures Adjusted(CurrentAge(lib, e, clock), clock.swr)
            < UsefulLife(lib, e, ccReq, ccResp) + CC.StaleWhileRevalidate(ccResp).value
  {
    RouteStaleOnly(Calculate(lib, e, ccReq, ccResp, clock), ccReq, ccResp, clock.swr);
    RouteBound(lib, e, ccReq, ccResp, clock);
  }

  lemma RouteStaleOnly(f: Freshness, ccReq: CC.Directives, ccResp: CC.Directives, now: Time)
    requires RouteOf(f, ccReq, ccResp, now).ServeStale?
    ensures !CC.OnlyIfCached(ccReq)
  {
  }

  /** A verdict that asks the origin returns what the validation ends with. */
  lemma HitRevalidates(lib: Library, conn: Conn, number: nat, req: Request, e: Entry, refs: seq<Ref>, i: int,
                       upstream: Option<Reply>, clock: Clock, faults: Faults)
    requires upstream.Some?
    requires RouteOf(FreshnessFor(lib, e, req, clock), DirectivesOf(req.header), DirectivesOf(e.data.header),
                     clock.swr).Revalidate?
    ensures var v := Hit(lib, conn, number, req, e, refs, i, upstream, clock, faults);
            var (source, s) := Ending(Conditional(req, e.data.header), e, FreshnessFor(lib, e, req, clock),
                                      DirectivesOf(req.header), TimedReply(lib, upstream.value, clock.end), clock);
            v.outcome == Returned(Stamped(source, s)) && v.exchange.Some?
  {
  }

  lemma StampedShows(r: Reply, s: CacheStatus, t: CacheStatus)
    ensures Shows(Stamped(r, s), t) <==> s == t
  {
    StampShows(r, s);
    if Shows(Stamped(r, s), t) {
      ShowsOne(Stamped(r, s), s, t);
    }
  }

  /** Repairing the Date leaves the directives alone. */
  lemma TimedDirectives(lib: Library, r: Reply, end: Time)
    ensures DirectivesOf(TimedReply(lib, r, end).header) == DirectivesOf(r.header)
  {
    assert |"Cache-Control"| != |"Date"|;
  }

  /** Which replies a revalidation ends with STALE on, for the verdict it was started with. */
  lemma RevalidationStale(lib: Library, conn: Conn, number: nat, req: Request, e: Entry, refs: seq<Ref>, i: int,
                          reply: Reply, clock: Clock, faults: Faults)
    requires RouteOf(FreshnessFor(lib, e, req, clock), DirectivesOf(req.header), DirectivesOf(e.data.header),
                     clock.swr).Revalidate?
    ensures var v := Hit(lib, conn, number, req, e, refs, i, Some(reply), clock, faults);
            var f := FreshnessFor(lib, e, req, clock);
            && v.outcome.Returned? && v.exchange.Some?
            && (Shows(v.outcome.reply, STALE) <==>
                  req.verb == "GET" && StaleErrorAllowed(reply.status) &&
                  CanStaleOnError(f, DirectivesOf(reply.header), clock.policy))
            && (Shows(v.outcome.reply, STALE) ==>
                  v.outcome.reply == Stamped(e.data.(header := Set(e.data.header, "Age",
                                                                   Decimal(AgeSeconds(f.age, clock.served)))), STALE))
  {
    var f := FreshnessFor(lib, e, req, clock);
    var resp := TimedReply(lib, reply, clock.end);
    HitRevalidates(lib, conn, number, req, e, refs, i, Some(reply), clock, faults);
    TimedDirectives(lib, reply, clock.end);
    var (source, s) := Ending(Conditional(req, e.data.header), e, f, DirectivesOf(req.header), resp, clock);
    StampedShows(source, s, STALE);
  }

  /** A reply served on an error status, for a request without max-age=0, is at most as old as
      the lifetime plus the error response's stale-if-error; the stored response's own
      directive plays no part. */
  lemma StaleIfErrorBound(lib: Library, conn: Conn, number: nat, req: Request, e: Entry, refs: seq<Ref>, i: int,
                          upstream: Option<Reply>, clock: Clock, faults: Faults)
    requires CC.MaxAge(DirectivesOf(req.header)) != Some(0)
    requires var v := Hit(lib, conn, number, req, e, refs, i, upstream, clock, faults);
             v.outcome.Returned? && v.exchange.Some? && Shows(v.outcome.reply, STALE)
    ensures req.verb == "GET" && upstream.Some? && StaleErrorAllowed(upstream.value.status)
    ensures var dur := CC.StaleIfError(DirectivesOf(upstream.value.header));
            dur.Some? && Adjusted(CurrentAge(lib, e, clock), clock.policy)
                         <= UsefulLife(lib, e, DirectivesOf(req.header), DirectivesOf(e.data.header)) + dur.value
  {
    HitAsks(lib, conn, number, req, e, refs, i, upstream, clock, faults);
    RevalidationStale(lib, conn, number, req, e, refs, i, upstream.value, clock, faults);
    StaleOnErrorIff(FreshnessFor(lib, e, req, clock), DirectivesOf(upstream.value.header), clock.policy);
  }

  /** A hit that reports an exchange revalidated. */
  lemma HitAsks(lib: Library, conn: Conn, number: nat, req: Request, e: Entry, refs: seq<Ref>, i: int,
                upstream: Option<Reply>, clock: Clock, faults: Faults)
    requires Hit(lib, conn, number, req, e, refs, i, upstream, clock, faults).exchange.Some?
    ensures upstream.Some?
    ensures RouteOf(FreshnessFor(lib, e, req, clock), DirectivesOf(req.header), DirectivesOf(e.data.header),
                    clock.swr).Revalidate?
  {
  }

  /** The same bound on the true age of a reply served on an error status. */
  lemma StaleIfErrorTrulyBounded(lib: Library, conn: Conn, number: nat, req: Request, e: Entry, refs: seq<Ref>, i: int,
                                 upstream: Option<Reply>, clock: Clock, faults: Faults)
    requires CC.MaxAge(DirectivesOf(req.header)) != Some(0) && Steady(e, clock, clock.policy)
    requires var v := Hit(lib, conn, number, req, e, refs, i, upstream, clock, faults);
             v.outcome.Returned? && v.exchange.Some? && Shows(v.outcome.reply, STALE)
    ensures upstream.Some? && CC.StaleIfError(DirectivesOf(upstream.value.header)).Some?
    ensures var life := UsefulLife(lib, e, DirectivesOf(req.header), DirectivesOf(e.data.header));
            var bound := life + CC.StaleIfError(DirectivesOf(upstream.value.header)).value;
            && (FitsAt(lib, e, clock.policy) ==> ExactAgeAt(lib, e, clock.policy) <= bound)
            && (bound <= MAX_DURATION && NoUnderflow(e.data.header, e.requestedAt, e.receivedAt) ==>
                  (ExactAgeAt(lib, e, clock.policy) <= bound <==> FitsAt(lib, e, clock.policy)))
  {
    StaleIfErrorBound(lib, conn, number, req, e, refs, i, upstream, clock, faults);
    AdjustedExact(lib, e, clock, clock.policy);
    BoundCarries(lib, e, clock.policy, UsefulLife(lib, e, DirectivesOf(req.header), DirectivesOf(e.data.header))
                                       + CC.StaleIfError(DirectivesOf(upstream.value.header)).value + 1);
  }

  /** When the origin was asked and answers with an error status, the entry is served if and
      only if its age is within that sum, and, should the sum wrap, also below the wrapped one. */
  lemma StaleIfErrorIff(lib: Library, conn: Conn, number: nat, req: Request, e: Entry, refs: seq<Ref>, i: int,
                        reply: Reply, clock: Clock, faults: Faults)
    requires req.verb == "GET" && reply.status in {500, 502, 503, 504} && CC.MaxAge(DirectivesOf(req.header)) != Some(0)
    requires RouteOf(FreshnessFor(lib, e, req, clock), DirectivesOf(req.header), DirectivesOf(e.data.header),
                     clock.swr).Revalidate?
    ensures var v := Hit(lib, conn, number, req, e, refs, i, Some(reply), clock, faults);
            var dur := CC.StaleIfError(DirectivesOf(reply.header));
            var life := UsefulLife(lib, e, DirectivesOf(req.header), DirectivesOf(e.data.header));
            var age := Adjusted(CurrentAge(lib, e, clock), clock.policy);
            && v.outcome.Returned?
            && (Shows(v.outcome.reply, STALE) <==>
                  dur.Some? && age <= life + dur.value &&
                    (life + dur.value > MAX_DURATION ==> age <= life + dur.value - TWO_64))
  {
    RevalidationStale(lib, conn, number, req, e, refs, i, reply, clock, faults);
    StaleOnErrorIff(FreshnessFor(lib, e, req, clock), DirectivesOf(reply.header), clock.policy);
  }

  lemma StaleOnErrorIff(f: Freshness, resCC: CC.Directives, now: Time)
    requires f.usefulLife >= 0
    ensures var dur := CC.StaleIfError(resCC);
            CanStaleOnError(f, resCC, now) <==>
              dur.Some? && Adjusted(f.age, now) <= f.usefulLife + dur.value &&
              (f.usefulLife + dur.value > MAX_DURATION ==> Adjusted(f.age, now) <= f.usefulLife + dur.value - TWO_64)
  {
    var dur := CC.StaleIfError(resCC);
    if dur.Some? {
      SumWraps(f.usefulLife, dur.value);
    }
  }

  /** With request max-age=0 that bound fails: the code counts the entry as born with the
      request, so an error status is answered from the store, at whatever age, if and only if
      the time since the verdict is within stale-if-error; and the Age shown starts from 0. */
  lemma StaleIfErrorMaxAgeZero(lib: Library, conn: Conn, number: nat, req: Request, e: Entry, refs: seq<Ref>, i: int,
                               reply: Reply, clock: Clock, faults: Faults)
    requires req.verb == "GET" && reply.status in {500, 502, 503, 504} && CC.MaxAge(DirectivesOf(req.header)) == Some(0)
    requires RouteOf(FreshnessFor(lib, e, req, clock), DirectivesOf(req.header), DirectivesOf(e.data.header),
                     clock.swr).Revalidate?
    ensures var v := Hit(lib, conn, number, req, e, refs, i, Some(reply), clock, faults);
            var dur := CC.StaleIfError(DirectivesOf(reply.header));
            && v.outcome.Returned?
            && (Shows(v.outcome.reply, STALE) <==> dur.Some? && Sub(clock.policy, clock.stamped) <= dur.value)
            && (Shows(v.outcome.reply, STALE) ==>
                  Carries(v.outcome.reply, e.data) &&
                  Values(v.outcome.reply.header, "Age") == [Decimal(Max(Sub(clock.served, clock.stamped), 0) / SECOND)])
  {
    RevalidationStale(lib, conn, number, req, e, refs, i, reply, clock, faults);
    StampedAge(e.data, Decimal(AgeSeconds(Age(0, clock.stamped), clock.served)), STALE);
  }

  lemma StampedAge(r: Reply, line: string, s: CacheStatus)
    ensures Carries(Stamped(r.(header := Set(r.header, "Age", line)), s), r)
    ensures Values(Stamped(r.(header := Set(r.header, "Age", line)), s).header, "Age") == [line]
  {
    assert "Age"[0] != STATUS[0] && "Age"[0] != FROM_CACHE[0];
  }

  /** Nor does request max-age=0 always reach the origin: it does not exactly when revalidation
      is not forced and either only-if-cached is asked for or the time since the verdict is
      within the entry's stale-while-revalidate, however old the entry is. */
  lemma MaxAgeZeroIff(lib: Library, conn: Conn, number: nat, req: Request, e: Entry, refs: seq<Ref>, i: int,
                      upstream: Option<Reply>, clock: Clock, faults: Faults)
    requires CC.MaxAge(DirectivesOf(req.header)) == Some(0)
    ensures var ccResp := DirectivesOf(e.data.header);
            var swr := CC.StaleWhileRevalidate(ccResp);
            WithoutContact(Hit(lib, conn, number, req, e, refs, i, upstream, clock, faults)) <==>
              && !CC.MustRevalidate(ccResp) && !CC.NoCacheUnqualified(ccResp)
              && (CC.OnlyIfCached(DirectivesOf(req.header)) ||
                  (swr.Some? && 0 <= Sub(clock.swr, clock.stamped) < swr.value))
  {
    HitWithoutContact(lib, conn, number, req, e, refs, i, upstream, clock, faults);
    var f := FreshnessFor(lib, e, req, clock);
    assert f == Freshness(true, Age(0, clock.stamped), 0);
    RouteBornNow(f, DirectivesOf(req.header), DirectivesOf(e.data.header), clock);
  }

  lemma RouteBornNow(f: Freshness, ccReq: CC.Directives, ccResp: CC.Directives, clock: Clock)
    requires f == Freshness(true, Age(0, clock.stamped), 0)
    ensures var swr := CC.StaleWhileRevalidate(ccResp);
            !RouteOf(f, ccReq, ccResp, clock.swr).Revalidate? <==>
              && !CC.MustRevalidate(ccResp) && !CC.NoCacheUnqualified(ccResp)
              && (CC.OnlyIfCached(ccReq) || (swr.Some? && 0 <= Sub(clock.swr, clock.stamped) < swr.value))
  {
  }

  lemma SumWraps(life: Duration, dur: Duration)
    requires life >= 0
    ensures Wrap64(life + dur) == if life + dur > MAX_DURATION then life + dur - TWO_64 else life + dur
  {
  }

  /** A stale must-revalidate entry is never returned without contact, and one with an
      unqualified no-cache only when it is fresh and immutable and the request has no
      no-cache of its own. */
  lemma RevalidationForced(lib: Library, conn: Conn, number: nat, req: Request, e: Entry, refs: seq<Ref>, i: int,
                           upstream: Option<Reply>, clock: Clock, faults: Faults)
    ensures var f := FreshnessFor(lib, e, req, clock);
            var ccResp := DirectivesOf(e.data.header);
            WithoutContact(Hit(lib, conn, number, req, e, refs, i, upstream, clock, faults)) ==>
            && !(f.isStale && CC.MustRevalidate(ccResp))
            && (CC.NoCacheUnqualified(ccResp) ==>
                  !f.isStale && CC.Immutable(ccResp) && !CC.NoCache(DirectivesOf(req.header)))
  {
  }

  /** What one more directive can do to the route: request no-cache, and must-revalidate or an
      unqualified no-cache of the entry, never take the origin out; only-if-cached and immutable
      never bring it in. */
  lemma RouteMonotone(f: Freshness, ccReq: CC.Directives, ccResp: CC.Directives, now: Time, v: string)
    ensures var asks := RouteOf(f, ccReq, ccResp, now).Revalidate?;
            && (asks ==> RouteOf(f, ccReq["no-cache" := v], ccResp, now).Revalidate?)
            && (asks ==> RouteOf(f, ccReq, ccResp["must-revalidate" := v], now).Revalidate?)
            && (asks ==> RouteOf(f, ccReq, ccResp["no-cache" := ""], now).Revalidate?)
            && (!asks ==> !RouteOf(f, ccReq["only-if-cached" := v], ccResp, now).Revalidate?)
            && (!asks ==> !RouteOf(f, ccReq, ccResp["immutable" := v], now).Revalidate?)
  {
    assert |"no-cache"| != |"only-if-cached"|;
    if RouteOf(f, ccReq, ccResp, now).Revalidate? {
      RouteWithMustRevalidate(f, ccReq, ccResp, now, v);
      RouteWithNoCache(f, ccReq, ccResp, now);
    }
    assert "immutable"[0] == 'i' && "must-revalidate"[0] == 'm' && "no-cache"[0] == 'n' && "stale-while-revalidate"[0]
           == 's';
  }

  lemma RouteWithMustRevalidate(f: Freshness, ccReq: CC.Directives, ccResp: CC.Directives, now: Time, v: string)
    requires RouteOf(f, ccReq, ccResp, now).Revalidate?
    ensures RouteOf(f, ccReq, ccResp["must-revalidate" := v], now).Revalidate?
  {
    assert "immutable"[0] == 'i' && "must-revalidate"[0] == 'm' && "no-cache"[0] == 'n' && "stale-while-revalidate"[0]
           == 's';
  }

  lemma RouteWithNoCache(f: Freshness, ccReq: CC.Directives, ccResp: CC.Directives, now: Time)
    requires RouteOf(f, ccReq, ccResp, now).Revalidate?
    ensures RouteOf(f, ccReq, ccResp["no-cache" := ""], now).Revalidate?
  {
    assert "immutable"[0] == 'i' && "must-revalidate"[0] == 'm' && "no-cache"[0] == 'n' && "stale-while-revalidate"[0]
           == 's';
    NoArgumentUnqualified(ccResp);
  }

  lemma NoArgumentUnqualified(ccResp: CC.Directives)
    ensures CC.NoCacheUnqualified(ccResp["no-cache" := ""])
  {
  }

  /** For the whole request: a client that adds no-cache never loses contact with the origin, and
      one that adds only-if-cached never gains it. */
  lemma RequestMonotone(lib: Library, conn: Conn, number: nat, req: Request, req': Request, e: Entry, refs: seq<Ref>,
                        i: int, upstream: Option<Reply>, clock: Clock, faults: Faults, v: string)
    ensures var before := WithoutContact(Hit(lib, conn, number, req, e, refs, i, upstream, clock, faults));
            var after := WithoutContact(Hit(lib, conn, number, req', e, refs, i, upstream, clock, faults));
            && (DirectivesOf(req'.header) == DirectivesOf(req.header)["no-cache" := v] ==> (after ==> before))
            && (DirectivesOf(req'.header) == DirectivesOf(req.header)["only-if-cached" := v] ==> (before ==> after))
  {
    var ccReq, ccReq' := DirectivesOf(req.header), DirectivesOf(req'.header);
    HitWithoutContact(lib, conn, number, req, e, refs, i, upstream, clock, faults);
    HitWithoutContact(lib, conn, number, req', e, refs, i, upstream, clock, faults);
    if ccReq' == ccReq["no-cache" := v] || ccReq' == ccReq["only-if-cached" := v] {
      SameVerdict(lib, e, ccReq, ccReq', v, clock);
      RouteMonotone(FreshnessFor(lib, e, req, clock), ccReq, DirectivesOf(e.data.header), clock.swr, v);
    }
  }

  /** Neither directive has a part in the freshness verdict. */
  lemma SameVerdict(lib: Library, e: Entry, ccReq: CC.Directives, ccReq': CC.Directives, v: string, clock: Clock)
    requires ccReq' == ccReq["no-cache" := v] || ccReq' == ccReq["only-if-cached" := v]
    ensures Calculate(lib, e, ccReq', DirectivesOf(e.data.header), clock)
            == Calculate(lib, e, ccReq, DirectivesOf(e.data.header), clock)
  {
    assert "max-age"[0] == 'm' && "min-fresh"[0] == 'm' && "max-stale"[0] == 'm' && "no-cache"[0] == 'n' &&
           "only-if-cached"[0] == 'o';
    CalculateReads(lib, e, ccReq, ccReq', DirectivesOf(e.data.header), clock);
  }

  lemma CalculateReads(lib: Library, e: Entry, ccReq: CC.Directives, ccReq': CC.Directives, ccResp: CC.Directives,
                       clock: Clock)
    requires CC.MaxAge(ccReq) == CC.MaxAge(ccReq') && CC.MaxStale(ccReq) == CC.MaxStale(ccReq')
    requires CC.MinFresh(ccReq) == CC.MinFresh(ccReq')
    ensures Calculate(lib, e, ccReq, ccResp, clock) == Calculate(lib, e, ccReq', ccResp, clock)
  {
    assert MinFreshOf(ccReq) == MinFreshOf(ccReq');
  }

  /** Revalidation comes before only-if-cached. */
  predicate Forced(f: Freshness, ccReq: CC.Directives, ccResp: CC.Directives) {
    !(!f.isStale && CC.Immutable(ccResp) && !CC.NoCache(ccReq)) &&
    ((f.isStale && CC.MustRevalidate(ccResp)) || CC.NoCacheUnqualified(ccResp))
  }

  lemma RouteOnlyIfCached(f: Freshness, ccReq: CC.Directives, ccResp: CC.Directives, now: Time)
    requires CC.OnlyIfCached(ccReq)
    ensures RouteOf(f, ccReq, ccResp, now) == if Forced(f, ccReq, ccResp) then Revalidate else ServeHit
  {
  }

  lemma OnlyIfCachedHit(lib: Library, conn: Conn, number: nat, req: Request, e: Entry, refs: seq<Ref>, i: int,
                        upstream: Option<Reply>, clock: Clock, faults: Faults)
    requires CC.OnlyIfCached(DirectivesOf(req.header))
    ensures var v := Hit(lib, conn, number, req, e, refs, i, upstream, clock, faults);
            var f := FreshnessFor(lib, e, req, clock);
            var forced := Forced(f, DirectivesOf(req.header), DirectivesOf(e.data.header));
            && (upstream.Some? ==> (v.exchange.Some? <==> forced))
            && (upstream.None? ==> (v.outcome.Failed? <==> forced))
            && (!forced ==>
                v.outcome == Returned(Served(e, f, DirectivesOf(e.data.header), clock.served)) && v.exchange.None?)
  {
    RouteOnlyIfCached(FreshnessFor(lib, e, req, clock), DirectivesOf(req.header), DirectivesOf(e.data.header),
                      clock.swr);
  }

  /** A request with only-if-cached reaches the origin on a hit, namely exactly when the entry is
      stale with must-revalidate or has an unqualified no-cache, and is not served as fresh and
      immutable. Otherwise it is served as a hit, however stale; without an entry it gets
      the 504. */
  lemma OnlyIfCachedIff(lib: Library, conn: Conn, number: nat, req: Request, upstream: Option<Reply>, clock: Clock,
                        faults: Faults)
    requires IsUnderstood(req) && CC.OnlyIfCached(DirectivesOf(req.header))
    ensures var l := Find(lib, conn, req, faults);
            var v := RoundTrip(lib, conn, number, req, upstream, clock, faults);
            if !l.Found? then v.outcome == Returned(GATEWAY_TIMEOUT) && v.exchange.None?
            else
              var forced := Forced(FreshnessFor(lib, l.entry, req, clock), DirectivesOf(req.header),
                                   DirectivesOf(l.entry.data.header));
              && (upstream.Some? ==> (v.exchange.Some? <==> forced))
              && (!forced ==>
                  WithoutContact(v) && Shows(v.outcome.reply, HIT) && Carries(v.outcome.reply, l.entry.data))
  {
    var l := Find(lib, conn, req, faults);
    if l.Found? {
      OnlyIfCachedHit(lib, conn, number, req, l.entry, l.refs, l.index, upstream, clock, faults);
      ServedPointwise(l.entry, FreshnessFor(lib, l.entry, req, clock), DirectivesOf(l.entry.data.header), clock.served,
                      STATUS);
    }
  }

  lemma RouteNoCacheIff(f: Freshness, ccReq: CC.Directives, ccResp: CC.Directives, now: Time)
    requires CC.NoCache(ccReq)
    ensures var swr := CC.StaleWhileRevalidate(ccResp);
            !RouteOf(f, ccReq, ccResp, now).Revalidate? <==>
              && !(f.isStale && CC.MustRevalidate(ccResp)) && !CC.NoCacheUnqualified(ccResp)
              && (CC.OnlyIfCached(ccReq) ||
                  (f.isStale && swr.Some? && 0 <= Wrap64(Adjusted(f.age, now) - f.usefulLife) < swr.value))
  {
  }

  /** A request no-cache does not always reach the origin: it is answered from the entry
      exactly when revalidation is not forced and either only-if-cached is asked for or the
      entry is stale within its stale-while-revalidate window. */
  lemma RequestNoCacheIff(lib: Library, conn: Conn, number: nat, req: Request, e: Entry, refs: seq<Ref>, i: int,
                          upstream: Option<Reply>, clock: Clock, faults: Faults)
    requires CC.NoCache(DirectivesOf(req.header))
    ensures var f := FreshnessFor(lib, e, req, clock);
            var ccResp := DirectivesOf(e.data.header);
            var swr := CC.StaleWhileRevalidate(ccResp);
            WithoutContact(Hit(lib, conn, number, req, e, refs, i, upstream, clock, faults)) <==>
              && !(f.isStale && CC.MustRevalidate(ccResp)) && !CC.NoCacheUnqualified(ccResp)
              && (CC.OnlyIfCached(DirectivesOf(req.header)) ||
                  (f.isStale && swr.Some? && 0 <= Wrap64(Adjusted(f.age, clock.swr) - f.usefulLife) < swr.value))
  {
    HitWithoutContact(lib, conn, number, req, e, refs, i, upstream, clock, faults);
    RouteNoCacheIff(FreshnessFor(lib, e, req, clock), DirectivesOf(req.header), DirectivesOf(e.data.header), clock.swr);
  }

  /** must-revalidate does not stop a request max-stale: past its lifetime such an entry is
      answered without contact exactly when the age is within the max-stale bound, and the
      request has no max-age=0, no positive min-fresh, and no no-cache without only-if-cached. */
  lemma MustRevalidateIff(lib: Library, conn: Conn, number: nat, req: Request, e: Entry, refs: seq<Ref>, i: int,
                          upstream: Option<Reply>, clock: Clock, faults: Faults)
    ensures var ccReq, ccResp := DirectivesOf(req.header), DirectivesOf(e.data.header);
            var age, life := CurrentAge(lib, e, clock).value, UsefulLife(lib, e, ccReq, ccResp);
            var maxStale := CC.MaxStale(ccReq);
            CC.MustRevalidate(ccResp) && !CC.NoCacheUnqualified(ccResp) && age >= life ==>
              (WithoutContact(Hit(lib, conn, number, req, e, refs, i, upstream, clock, faults)) <==>
                 && CC.MaxAge(ccReq) != Some(0) && MinFreshOf(ccReq) == 0
                 && (CC.OnlyIfCached(ccReq) || !CC.NoCache(ccReq))
                 && maxStale > 0 && age < Max(Wrap64(life + maxStale), maxStale))
  {
    HitWithoutContact(lib, conn, number, req, e, refs, i, upstream, clock, faults);
    MustRevalidateRoute(lib, e, DirectivesOf(req.header), DirectivesOf(e.data.header), clock);
  }

  lemma MustRevalidateRoute(lib: Library, e: Entry, ccReq: CC.Directives, ccResp: CC.Directives, clock: Clock)
    ensures var age, life := CurrentAge(lib, e, clock).value, UsefulLife(lib, e, ccReq, ccResp);
            var maxStale := CC.MaxStale(ccReq);
            CC.MustRevalidate(ccResp) && !CC.NoCacheUnqualified(ccResp) && age >= life ==>
              (!RouteOf(Calculate(lib, e, ccReq, ccResp, clock), ccReq, ccResp, clock.swr).Revalidate? <==>
                 && CC.MaxAge(ccReq) != Some(0) && MinFreshOf(ccReq) == 0
                 && (CC.OnlyIfCached(ccReq) || !CC.NoCache(ccReq))
                 && maxStale > 0 && age < Max(Wrap64(life + maxStale), maxStale))
  {
    var age, life := CurrentAge(lib, e, clock).value, UsefulLife(lib, e, ccReq, ccResp);
    if CC.MustRevalidate(ccResp) && !CC.NoCacheUnqualified(ccResp) && age >= life {
      PastLifetime(age, life, MinFreshOf(ccReq), CC.MaxStale(ccReq));
      RouteMustRevalidate(Calculate(lib, e, ccReq, ccResp, clock), ccReq, ccResp, clock.swr);
    }
  }

  /** Past the lifetime only max-stale makes an age count as fresh, and min-fresh undoes it. */
  lemma PastLifetime(age: Duration, life: Duration, minFresh: Duration, maxStale: Duration)
    requires 0 <= life <= age && 0 <= minFresh
    ensures !StaleAt(age, life, minFresh, maxStale) <==>
              minFresh == 0 && maxStale > 0 && age < Max(Wrap64(life + maxStale), maxStale)
  {
  }

  /** With must-revalidate the entry is served exactly when it does not count as stale and no
      request no-cache stands against it. */
  lemma RouteMustRevalidate(f: Freshness, ccReq: CC.Directives, ccResp: CC.Directives, now: Time)
    requires CC.MustRevalidate(ccResp) && !CC.NoCacheUnqualified(ccResp)
    ensures !RouteOf(f, ccReq, ccResp, now).Revalidate? <==>
            !f.isStale && (CC.OnlyIfCached(ccReq) || !CC.NoCache(ccReq))
  {
  }

  // ----- Status -----

  predicate Carries(r: Reply, source: Reply) {
    r.status == source.status && r.body == source.body
  }

  predicate Shows(r: Reply, s: CacheStatus) {
    STATUS in r.header && r.header[STATUS] == [s.Value()]
  }

  predicate FromCache(r: Reply) {
    FROM_CACHE in r.header && r.header[FROM_CACHE] == ["1"]
  }

  /** The reply `r`, stamped `s`, is what the stamp says, for the entry the lookup found. */
  predicate Honest(r: Reply, s: CacheStatus, found: Option<Entry>, v: Verdict, upstream: Option<Reply>,
                   onlyIfCached: bool) {
    match s
    case HIT => found.Some? && Carries(r, found.value.data) && v.exchange.None? && v.job.None?
    case STALE => found.Some? && Carries(r, found.value.data) &&
      (v.job.Some? || (v.exchange.Some? && StaleErrorAllowed(v.exchange.value.reply.status)))
    case REVALIDATED => found.Some? && Carries(r, found.value.data) &&
      v.exchange.Some? && v.exchange.value.reply.status == 304
    case MISS => v.exchange.Some? && upstream.Some? && Carries(r, upstream.value)
    case BYPASS =>
      (v.exchange.Some? && upstream.Some? && Carries(r, upstream.value)) ||
      (r == GATEWAY_TIMEOUT && v.exchange.None? && found.None? && onlyIfCached)
  }

  /** Some stamp fits, and X-From-Cache is set exactly on the replies from the store unless
      upstream sets it itself. */
  ghost predicate Truthful(v: Verdict, found: Option<Entry>, upstream: Option<Reply>, onlyIfCached: bool) {
    v.outcome.Returned? ==>
      exists s: CacheStatus :: Shows(v.outcome.reply, s) &&
        Honest(v.outcome.reply, s, found, v, upstream, onlyIfCached) &&
        (s.Legacy() ==> FromCache(v.outcome.reply)) &&
        (!s.Legacy() && (upstream.Some? ==> FROM_CACHE !in upstream.value.header) ==>
         FROM_CACHE !in v.outcome.reply.header)
  }

  lemma StampShows(r: Reply, s: CacheStatus)
    ensures Shows(Stamped(r, s), s) && Carries(Stamped(r, s), r)
    ensures s.Legacy() ==> FromCache(Stamped(r, s))
    ensures !s.Legacy() && FROM_CACHE !in r.header ==> FROM_CACHE !in Stamped(r, s).header
  {
    assert STATUS[2] != FROM_CACHE[2];
  }

  /** Date repair and hop-by-hop removal bring in no X-From-Cache. */
  lemma TimedKeepsFromCache(lib: Library, r: Reply, end: Time)
    requires FROM_CACHE !in r.header
    ensures FROM_CACHE !in TimedReply(lib, r, end).header
    ensures FROM_CACHE !in EndToEnd(TimedReply(lib, r, end).header)
  {
    assert "Date"[0] != FROM_CACHE[0];
  }

  /** The consequence of a precondition of the client's own that stays in place: when the stored
      reply lacks the validator, the origin's 304 may answer the client's, and still the stored reply is
      returned as revalidated, and stored as freshened. */
  lemma ForeignPrecondition(lib: Library, conn: Conn, number: nat, req: Request, e: Entry, refs: seq<Ref>, i: int,
                            reply: Reply, clock: Clock, faults: Faults)
    requires req.verb == "GET" && reply.status == 304
    requires (Get(e.data.header, "Etag") == "" && Values(req.header, "If-None-Match") != []) ||
             (Get(e.data.header, "Last-Modified") == "" && Values(req.header, "If-Modified-Since") != [])
    requires RouteOf(FreshnessFor(lib, e, req, clock), DirectivesOf(req.header), DirectivesOf(e.data.header),
                     clock.swr).Revalidate?
    ensures var v := Hit(lib, conn, number, req, e, refs, i, Some(reply), clock, faults);
            && v.exchange.Some? && v.outcome.Returned? && v.effect.Store?
            && (Get(e.data.header, "Etag") == "" ==>
                  Values(v.exchange.value.req.header, "If-None-Match") == Values(req.header, "If-None-Match"))
            && (Get(e.data.header, "Last-Modified") == "" ==>
                  Values(v.exchange.value.req.header, "If-Modified-Since") == Values(req.header, "If-Modified-Since"))
            && Shows(v.outcome.reply, REVALIDATED) && Carries(v.outcome.reply, e.data)
            && Carries(v.effect.entry.data, e.data) && v.effect.entry.lineage == e.lineage + [number]
  {
    ConditionalCarries(req, e.data.header);
    HitRevalidates(lib, conn, number, req, e, refs, i, Some(reply), clock, faults);
    var resp := TimedReply(lib, reply, clock.end);
    var (source, s) := Ending(Conditional(req, e.data.header), e, FreshnessFor(lib, e, req, clock),
                              DirectivesOf(req.header), resp, clock);
    StampShows(source, s);
    var v := Hit(lib, conn, number, req, e, refs, i, Some(reply), clock, faults);
    assert v.effect == StoreEffect(lib, Conditional(req, e.data.header), Freshened(e, resp), e.lineage + [number], refs,
                                   i,
                                   clock.start, clock.end);
  }

  lemma TimeoutShows()
    ensures Shows(GATEWAY_TIMEOUT, BYPASS) && FROM_CACHE !in GATEWAY_TIMEOUT.header
  {
    assert STATUS[2] != FROM_CACHE[2];
    assert FROM_CACHE[0] == 'X';
    assert "Cache-Control"[0] != 'X' && "Content-Length"[0] != 'X' && "Connection"[0] != 'X';
    assert |"Connection"| != |STATUS| && |"Cache-Control"| != |STATUS| && |"Content-Length"| != |STATUS|;
  }

  lemma MissTruthful(lib: Library, number: nat, req: Request, refs: seq<Ref>, index: int, upstream: Option<Reply>,
                     clock: Clock)
    ensures Truthful(Miss(lib, number, req, refs, index, upstream, clock), None, upstream,
                     CC.OnlyIfCached(DirectivesOf(req.header)))
  {
    var v := Miss(lib, number, req, refs, index, upstream, clock);
    if CC.OnlyIfCached(DirectivesOf(req.header)) {
      TimeoutShows();
      assert Shows(v.outcome.reply, BYPASS);
    } else if upstream.Some? {
      var resp := TimedReply(lib, upstream.value, clock.end);
      StampShows(resp, MISS);
      StampShows(resp.(header := EndToEnd(resp.header)), MISS);
      if FROM_CACHE !in upstream.value.header {
        TimedKeepsFromCache(lib, upstream.value, clock.end);
      }
      assert Shows(v.outcome.reply, MISS);
    }
  }

  lemma UnrecognizedTruthful(lib: Library, conn: Conn, req: Request, upstream: Option<Reply>, clock: Clock,
                             faults: Faults)
    ensures Truthful(Unrecognized(lib, conn, req, upstream, clock, faults), None, upstream, false)
  {
    var v := Unrecognized(lib, conn, req, upstream, clock, faults);
    if upstream.Some? {
      StampShows(upstream.value, BYPASS);
      assert Shows(v.outcome.reply, BYPASS);
    }
  }

  /** A verdict stamped `s` on `source` is truthful when its stamp is honest. */
  lemma StampTruthful(v: Verdict, source: Reply, s: CacheStatus, found: Option<Entry>, upstream: Option<Reply>,
                      onlyIfCached: bool)
    requires v.outcome == Returned(Stamped(source, s))
    requires Honest(Stamped(source, s), s, found, v, upstream, onlyIfCached)
    requires !s.Legacy() && (upstream.Some? ==> FROM_CACHE !in upstream.value.header) ==> FROM_CACHE !in source.header
    ensures Truthful(v, found, upstream, onlyIfCached)
  {
    StampShows(source, s);
    assert Shows(v.outcome.reply, s);
  }

  /** The status of a validation: which of the four endings, and what it carries. */
  lemma ValidationTruthful(lib: Library, conn: Conn, number: nat, req: Request, stored: Entry, f: Freshness,
                           ccReq: CC.Directives, refs: seq<Ref>, index: int, upstream: Option<Reply>, clock: Clock,
                           faults: Faults, onlyIfCached: bool)
    ensures Truthful(Revalidated(lib, conn, number, req, stored, f, ccReq, refs, index, upstream, clock, faults),
                     Some(stored), upstream, onlyIfCached)
  {
    var v := Revalidated(lib, conn, number, req, stored, f, ccReq, refs, index, upstream, clock, faults);
    if upstream.Some? {
      var resp := TimedReply(lib, upstream.value, clock.end);
      var (source, s) := Ending(req, stored, f, ccReq, resp, clock);
      if FROM_CACHE !in upstream.value.header {
        TimedKeepsFromCache(lib, upstream.value, clock.end);
      }
      StampTruthful(v, source, s, Some(stored), upstream, onlyIfCached);
    }
  }

  lemma HitTruthful(lib: Library, conn: Conn, number: nat, req: Request, stored: Entry, refs: seq<Ref>, index: int,
                    upstream: Option<Reply>, clock: Clock, faults: Faults)
    ensures Truthful(Hit(lib, conn, number, req, stored, refs, index, upstream, clock, faults), Some(stored), upstream,
                     CC.OnlyIfCached(DirectivesOf(req.header)))
  {
    var ccReq, ccResp := DirectivesOf(req.header), DirectivesOf(stored.data.header);
    var f := FreshnessFor(lib, stored, req, clock);
    match RouteOf(f, ccReq, ccResp, clock.swr)
    case ServeHit => ServedTruthful(stored, f, ccResp, clock.served, upstream, CC.OnlyIfCached(ccReq));
    case ServeStale =>
      StampTruthful(StaleAndJob(req, stored, f, ccReq), stored.data, STALE, Some(stored), upstream,
                    CC.OnlyIfCached(ccReq));
    case Revalidate =>
      ValidationTruthful(lib, conn, number, Conditional(req, stored.data.header), stored, f, ccReq, refs, index,
                         upstream, clock, faults, CC.OnlyIfCached(ccReq));
  }

  lemma ServedTruthful(stored: Entry, f: Freshness, ccResp: CC.Directives, now: Time, upstream: Option<Reply>,
                       onlyIfCached: bool)
    ensures Truthful(Verdict(Returned(Served(stored, f, ccResp, now)), Keep, None, None), Some(stored), upstream,
                     onlyIfCached)
  {
    var aged := Set(stored.data.header - Withheld(ccResp), "Age", Decimal(AgeSeconds(f.age, now)));
    StampTruthful(Verdict(Returned(Served(stored, f, ccResp, now)), Keep, None, None),
                  stored.data.(header := aged), HIT, Some(stored), upstream, onlyIfCached);
  }

  function FoundEntry(l: Lookup): Option<Entry> {
    match l
    case Found(e, _, _) => Some(e)
    case _ => None
  }

  /** On every path that returns a reply, its status is the truth: HIT, STALE and REVALIDATED
      carry the selected entry's status and body, REVALIDATED only after a 304 in this step;
      MISS and BYPASS carry this step's upstream reply or the synthesized 504. */
  lemma StatusTruthful(lib: Library, conn: Conn, number: nat, req: Request, upstream: Option<Reply>, clock: Clock,
                       faults: Faults)
    ensures var found := if IsUnderstood(req) then FoundEntry(Find(lib, conn, req, faults)) else None;
            Truthful(RoundTrip(lib, conn, number, req, upstream, clock, faults), found, upstream,
                     IsUnderstood(req) && CC.OnlyIfCached(DirectivesOf(req.header)))
  {
    if !IsUnderstood(req) {
      UnrecognizedTruthful(lib, conn, req, upstream, clock, faults);
    } else {
      var l := Find(lib, conn, req, faults);
      if l.Found? {
        HitTruthful(lib, conn, number, req, l.entry, l.refs, l.index, upstream, clock, faults);
      } else {
        MissTruthful(lib, number, req, RefsOf(l), IndexOf(l), upstream, clock);
      }
    }
  }

  // ----- In every run -----

  /** The reply carries the status and body of an admitted upstream reply to a Range-less GET
      for `u`, received earlier in the run. */
  ghost predicate EarlierReply(lib: Library, trace: seq<Exchange>, r: Reply, u: string) {
    exists i :: 0 <= i < |trace| && IsUnderstood(trace[i].req) && trace[i].req.url.key == u &&
                Provenance.Admitted(lib, trace[i]) && Carries(r, trace[i].reply)
  }

  lemma ShowsOne(r: Reply, s: CacheStatus, t: CacheStatus)
    requires Shows(r, s) && Shows(r, t)
    ensures s == t
  {
    assert |s.Value()| == |t.Value()|;
  }

  predicate ShowsLegacy(r: Reply) {
    Shows(r, HIT) || Shows(r, STALE) || Shows(r, REVALIDATED)
  }

  lemma TruthfulLegacy(v: Verdict, found: Option<Entry>, upstream: Option<Reply>, onlyIfCached: bool)
    requires Truthful(v, found, upstream, onlyIfCached) && v.outcome.Returned? && ShowsLegacy(v.outcome.reply)
    ensures found.Some? && Carries(v.outcome.reply, found.value.data)
  {
    var r := v.outcome.reply;
    var s: CacheStatus :| Shows(r, s) && Honest(r, s, found, v, upstream, onlyIfCached);
    if !s.Legacy() {
      var t :| t in {HIT, STALE, REVALIDATED} && Shows(r, t);
      ShowsOne(r, s, t);
      assert false;
    }
  }

  lemma EntryIsEarlierReply(lib: Library, trace: seq<Exchange>, e: Entry, r: Reply, u: string)
    requires Provenance.EntryOk(lib, trace, e, u) && Carries(r, e.data)
    ensures EarlierReply(lib, trace, r, u)
  {
    assert Carries(r, trace[e.lineage[0]].reply);
  }

  /** In every run, a reply stamped HIT, STALE or REVALIDATED carries an earlier upstream reply
      for its own URL key; nothing is ever served from another key. */
  lemma ServedFromOwnKey(lib: Library, steps: seq<Step>, req: Request, upstream: Option<Reply>, clock: Clock,
                         faults: Faults)
    requires Vary.PermutesRefs(lib) && '#' !in req.url.key
    requires forall i :: 0 <= i < |steps| ==> Provenance.WellKeyed(steps[i])
    ensures var w := Run(lib, INIT, steps);
            var v := RoundTrip(lib, w.conn, |w.trace|, req, upstream, clock, faults);
            v.outcome.Returned? && ShowsLegacy(v.outcome.reply) ==>
              EarlierReply(lib, w.trace, v.outcome.reply, req.url.key)
  {
    var w := Run(lib, INIT, steps);
    Provenance.RunOk(lib, steps);
    Provenance.FindOk(lib, w, req, faults);
    StatusTruthful(lib, w.conn, |w.trace|, req, upstream, clock, faults);
    var v := RoundTrip(lib, w.conn, |w.trace|, req, upstream, clock, faults);
    var found := if IsUnderstood(req) then FoundEntry(Find(lib, w.conn, req, faults)) else None;
    if v.outcome.Returned? && ShowsLegacy(v.outcome.reply) {
      TruthfulLegacy(v, found, upstream, IsUnderstood(req) && CC.OnlyIfCached(DirectivesOf(req.header)));
      EntryIsEarlierReply(lib, w.trace, found.value, v.outcome.reply, req.url.key);
    }
  }

  /** In every run no stored reply is partial, interim or beyond 599, and none is a 304 unless
      one was admitted without an entry to freshen. */
  lemma StoredStatus(lib: Library, steps: seq<Step>, id: string)
    requires Vary.PermutesRefs(lib)
    requires forall i :: 0 <= i < |steps| ==> Provenance.WellKeyed(steps[i])
    requires var conn := Run(lib, INIT, steps).conn; id in conn && conn[id].Stored?
    ensures var status := Run(lib, INIT, steps).conn[id].entry.data.status;
            && 200 <= status < 600 && status != 206
            && (Origins.NoneAdmits(lib, steps) ==> status != 304)
  {
    var w := Run(lib, INIT, steps);
    Provenance.RunOk(lib, steps);
    assert Provenance.BlobOk(lib, w.trace, id, w.conn[id]);
    var ex := w.trace[w.conn[id].entry.lineage[0]];
    assert Provenance.Admitted(lib, ex);
    CanStoreCases(Provenance.Received(lib, ex), DirectivesOf(ex.req.header),
                  DirectivesOf(Provenance.Received(lib, ex).header));
    if Origins.NoneAdmits(lib, steps) {
      Origins.OriginsFull(lib, steps, id);
    }
  }

  /** The reply carries an upstream reply of exchange `n` or later. */
  ghost predicate ReplySince(trace: seq<Exchange>, r: Reply, u: string, n: nat) {
    exists i :: n <= i < |trace| && trace[i].req.url.key == u && Carries(r, trace[i].reply)
  }

  lemma EntryIsReplySince(lib: Library, trace: seq<Exchange>, e: Entry, r: Reply, u: string, n: nat)
    requires Provenance.EntryOk(lib, trace, e, u) && Carries(r, e.data) && n <= e.lineage[0]
    ensures ReplySince(trace, r, u, n)
  {
    assert Carries(r, trace[e.lineage[0]].reply);
  }

  /** No resurrection, as a client sees it: after an unsafe request has addressed `u`, with no
      background revalidation pending for it, every later reply for `u` from the store carries
      an upstream reply received since. */
  lemma NothingOldServed(lib: Library, w: World, step: Step, u: string, steps: seq<Step>, req: Request,
                         upstream: Option<Reply>, clock: Clock, faults: Faults)
    requires Provenance.WorldOk(lib, w) && Vary.PermutesRefs(lib) && Provenance.WellKeyed(step) && '#' !in u
    requires Resurrection.Invalidates(lib, step, u) && u !in step.faults.undeletable
    requires forall j :: j in w.pending ==> j.req.url.key != u
    requires Resurrection.AllWritable(steps) && req.url.key == u
    ensures var w1 := Next(lib, w, step);
            var w2 := Run(lib, w1, steps);
            var v := RoundTrip(lib, w2.conn, |w2.trace|, req, upstream, clock, faults);
            v.outcome.Returned? && ShowsLegacy(v.outcome.reply) ==> ReplySince(w2.trace, v.outcome.reply, u, |w1.trace|)
  {
    var w1 := Next(lib, w, step);
    var w2 := Run(lib, w1, steps);
    Resurrection.InvalidationCuts(lib, w, step, u);
    Provenance.NextOk(lib, w, step);
    Resurrection.RunCut(lib, w1, steps, u, |w1.trace|);
    Resurrection.FindSince(lib, w2.conn, req, faults, |w1.trace|);
    Provenance.FindOk(lib, w2, req, faults);
    StatusTruthful(lib, w2.conn, |w2.trace|, req, upstream, clock, faults);
    var v := RoundTrip(lib, w2.conn, |w2.trace|, req, upstream, clock, faults);
    var found := if IsUnderstood(req) then FoundEntry(Find(lib, w2.conn, req, faults)) else None;
    if v.outcome.Returned? && ShowsLegacy(v.outcome.reply) {
      TruthfulLegacy(v, found, upstream, IsUnderstood(req) && CC.OnlyIfCached(DirectivesOf(req.header)));
      EntryIsReplySince(lib, w2.trace, found.value, v.outcome.reply, u, |w1.trace|);
    }
  }

  // ----- What a hit shows of the stored header -----

  /** A hit has every stored field but the withheld ones, the computed Age and the stamps. */
  lemma ServedPointwise(stored: Entry, f: Freshness, ccResp: CC.Directives, now: Time, field: string)
    ensures var r := Served(stored, f, ccResp, now);
            && Carries(r, stored.data)
            && (field != "Age" && field != STATUS && field != FROM_CACHE ==>
                  Values(r.header, field) == if field in Withheld(ccResp) then []
                    else Values(stored.data.header, field))
            && Values(r.header, "Age") == [Decimal(AgeSeconds(f.age, now))]
            && Values(r.header, STATUS) == ["HIT"] && Values(r.header, FROM_CACHE) == ["1"]
  {
    assert STATUS[2] != FROM_CACHE[2];
    assert "Age"[0] != STATUS[0] && "Age"[0] != FROM_CACHE[0];
  }

  predicate Stamps(field: string) {
    field == STATUS || field == FROM_CACHE
  }

  lemma StampedValues(r: Reply, s: CacheStatus, field: string)
    requires !Stamps(field)
    ensures Values(Stamped(r, s).header, field) == Values(r.header, field)
  {
  }

  lemma AgedValues(h: Header, line: string, field: string)
    requires field != "Age"
    ensures Values(Set(h, "Age", line), field) == Values(h, field)
  {
  }

  /** A stale reply given while revalidating is the stored one, stamps aside: its Age line is the
      stored one, and the fields a no-cache lists are in it. */
  lemma StaleAndJobShows(req: Request, e: Entry, f: Freshness, ccReq: CC.Directives, field: string)
    requires !Stamps(field)
    ensures var v := StaleAndJob(req, e, f, ccReq);
            v.outcome.Returned? && Shows(v.outcome.reply, STALE) && Values(v.outcome.reply.header, field)
              == Values(e.data.header, field)
  {
    StampShows(e.data, STALE);
    StampedValues(e.data, STALE, field);
  }

  /** What a revalidation shows of a stored field, by the status it ends with. */
  lemma EndingShows(req: Request, e: Entry, f: Freshness, ccReq: CC.Directives, resp: Reply, clock: Clock,
                    field: string)
    requires !Stamps(field) && field != "Age"
    ensures var (source, s) := Ending(req, e, f, ccReq, resp, clock);
            var shown := Values(Stamped(source, s).header, field);
            && !s.HIT?
            && (s.STALE? ==> shown == Values(e.data.header, field))
            && (s.REVALIDATED? ==> shown == FreshenedValues(e, resp, field))
  {
    var (source, s) := Ending(req, e, f, ccReq, resp, clock);
    StampedValues(source, s, field);
    if s.STALE? {
      AgedValues(e.data.header, Decimal(AgeSeconds(f.age, clock.served)), field);
    }
  }

  /** The lines of a field in the stored reply as a 304 freshens it. */
  function FreshenedValues(e: Entry, resp: Reply, field: string): seq<string> {
    var merged := Freshened(e, resp).header;
    if field in HopByHop(merged) then [] else Values(merged, field)
  }

  /** What a reply from the store shows of a stored field, by its status. The fields listed in
      no-cache="..." are withheld from a hit only: a stale reply, whether while revalidating or
      on an error status, shows them, and a revalidated one as the 304 leaves them. */
  lemma WithheldOnHitOnly(lib: Library, conn: Conn, number: nat, req: Request, e: Entry, refs: seq<Ref>, i: int,
                          upstream: Option<Reply>, clock: Clock, faults: Faults, field: string)
    requires !Stamps(field) && field != "Age"
    ensures var v := Hit(lib, conn, number, req, e, refs, i, upstream, clock, faults);
            v.outcome.Returned? ==>
              var shown := Values(v.outcome.reply.header, field);
              && (Shows(v.outcome.reply, HIT) ==>
                    shown == if field in Withheld(DirectivesOf(e.data.header)) then []
                      else Values(e.data.header, field))
              && (Shows(v.outcome.reply, STALE) ==> shown == Values(e.data.header, field))
              && (Shows(v.outcome.reply, REVALIDATED) ==>
                    upstream.Some? && shown == FreshenedValues(e, TimedReply(lib, upstream.value, clock.end), field))
  {
    var ccReq, ccResp := DirectivesOf(req.header), DirectivesOf(e.data.header);
    var f := FreshnessFor(lib, e, req, clock);
    var v := Hit(lib, conn, number, req, e, refs, i, upstream, clock, faults);
    match RouteOf(f, ccReq, ccResp, clock.swr)
    case ServeHit =>
      ServedPointwise(e, f, ccResp, clock.served, field);
      OnlyStatus(v.outcome.reply, HIT);
    case ServeStale =>
      StaleAndJobShows(req, e, f, ccReq, field);
      OnlyStatus(v.outcome.reply, STALE);
    case Revalidate =>
      if upstream.Some? {
        var resp := TimedReply(lib, upstream.value, clock.end);
        HitRevalidates(lib, conn, number, req, e, refs, i, upstream, clock, faults);
        EndingShows(Conditional(req, e.data.header), e, f, ccReq, resp, clock, field);
        var (source, s) := Ending(Conditional(req, e.data.header), e, f, ccReq, resp, clock);
        StampShows(source, s);
        OnlyStatus(v.outcome.reply, s);
      }
  }

  lemma OnlyStatus(r: Reply, s: CacheStatus)
    requires Shows(r, s)
    ensures forall t: CacheStatus :: Shows(r, t) ==> t == s
  {
    forall t: CacheStatus | Shows(r, t) ensures t == s {
      ShowsOne(r, s, t);
    }
  }

  /** End to end: when the stored Cache-Control line is a printed list with a no-cache of these
      fields, exactly those fields, in canonical form, are withheld; without a no-cache none. */
  lemma WithheldExactly(h: Header, items: seq<CC.Item>, k: nat, fields: seq<string>)
    requires forall i :: 0 <= i < |items| ==> CC.ValidItem(items[i])
    requires k < |items| && items[k] == CC.Item("no-cache", CC.Quoted(Csv.Join(fields, ", ")))
    requires forall j :: k < j < |items| ==> items[j].name != "no-cache"
    requires |fields| > 0 && forall i :: 0 <= i < |fields| ==> IsToken(fields[i])
    requires Get(h, "Cache-Control") == CC.Print(items)
    ensures Withheld(DirectivesOf(h)) == set f | f in fields :: CanonicalKey(f)
  {
    CC.LookupPrinted(items, k);
    assert CC.Parse("") == map[] by {
      assert Csv.Split("") == [];
    }
    CC.NoCacheFieldsRoundTrip(items, k, fields);
  }

  // ----- The cache caches -----

  /** Right after a first store the same request finds the entry, unless the reply's Vary is
      exactly "*". */
  lemma StoredIsFound(lib: Library, conn: Conn, req: Request, resp: Reply, number: nat, clock: Clock)
    requires Vary.PermutesRefs(lib) && '#' !in req.url.key
    ensures var eff := StoreEffect(lib, req, resp, [number], [], -1, clock.start, clock.end);
            VaryOf(eff.entry.data.header) != "*" <==>
              Find(lib, Apply(conn, eff, NO_FAULTS), req, NO_FAULTS) == Found(eff.entry, eff.refs, 0)
  {
    var eff := StoreEffect(lib, req, resp, [number], [], -1, clock.start, clock.end);
    var r := eff.refs[0];
    assert eff.refs == [r];
    Vary.VaryKeyHasHash(lib, req.url.key, r.resolved);
    Vary.MatchMeansAgreement(lib, r, req.header, req.header);
    OneRefLookup(lib, Apply(conn, eff, NO_FAULTS), r, eff.entry, req);
  }

  /** A list of one ref: its entry is found if and only if the ref matches. */
  lemma OneRefLookup(lib: Library, conn: Conn, r: Ref, e: Entry, req: Request)
    requires Vary.PermutesRefs(lib)
    requires req.url.key in conn && conn[req.url.key] == Refs([r]) && r.id in conn && conn[r.id] == Stored(e)
    ensures Find(lib, conn, req, NO_FAULTS) == if Vary.Matches(lib, r, req.header) then Found(e, [r], 0)
            else NoMatch([r])
  {
    Resurrection.SingletonSort(lib, r);
    assert [r][1..] == [];
    assert Vary.FirstMatch(lib, [r], req.header) == if Vary.Matches(lib, r, req.header) then 0 else 1;
  }

  /** A first reply that may be stored is served from the store to the same request for as long
      as it is fresh, unless its Vary is "*", the request says no-cache or the reply has an
      unqualified no-cache without immutable. */
  lemma FreshRepeatIsHit(lib: Library, conn: Conn, number: nat, req: Request, reply: Reply, clock: Clock, clock': Clock)
    requires Vary.PermutesRefs(lib) && '#' !in req.url.key && IsUnderstood(req)
    requires Find(lib, conn, req, NO_FAULTS).Nothing? && !CC.NoCache(DirectivesOf(req.header))
    ensures var v := RoundTrip(lib, conn, number, req, Some(reply), clock, NO_FAULTS);
            var conn' := Apply(conn, v.effect, NO_FAULTS);
            var v' := RoundTrip(lib, conn', number + 1, req, None, clock', NO_FAULTS);
            v.effect.Store? && Reusable(lib, v.effect.entry, req, clock') ==>
              WithoutContact(v') && Carries(v'.outcome.reply, reply) && Shows(v'.outcome.reply, HIT)
  {
    var v := RoundTrip(lib, conn, number, req, Some(reply), clock, NO_FAULTS);
    if v.effect.Store? && Reusable(lib, v.effect.entry, req, clock') {
      var resp := TimedReply(lib, reply, clock.end);
      assert v == Miss(lib, number, req, [], -1, Some(reply), clock);
      assert v.effect == StoreEffect(lib, req, resp, [number], [], -1, clock.start, clock.end);
      StoredIsFound(lib, conn, req, resp, number, clock);
      var conn' := Apply(conn, v.effect, NO_FAULTS);
      FreshHit(lib, conn', number + 1, req, v.effect.entry, v.effect.refs, 0, clock');
    }
  }

  /** The entry is fresh, its Vary is not "*", and an unqualified no-cache is outweighed by
      immutable. */
  predicate Reusable(lib: Library, e: Entry, req: Request, clock: Clock) {
    VaryOf(e.data.header) != "*" && !FreshnessFor(lib, e, req, clock).isStale &&
    (CC.NoCacheUnqualified(DirectivesOf(e.data.header)) ==> CC.Immutable(DirectivesOf(e.data.header)))
  }

  lemma FreshHit(lib: Library, conn: Conn, number: nat, req: Request, e: Entry, refs: seq<Ref>, i: nat, clock: Clock)
    requires IsUnderstood(req) && Find(lib, conn, req, NO_FAULTS) == Found(e, refs, i)
    requires !CC.NoCache(DirectivesOf(req.header)) && !FreshnessFor(lib, e, req, clock).isStale
    requires CC.NoCacheUnqualified(DirectivesOf(e.data.header)) ==> CC.Immutable(DirectivesOf(e.data.header))
    ensures var v := RoundTrip(lib, conn, number, req, None, clock, NO_FAULTS);
            WithoutContact(v) && Carries(v.outcome.reply, e.data) && Shows(v.outcome.reply, HIT)
  {
    var v := RoundTrip(lib, conn, number, req, None, clock, NO_FAULTS);
    assert v == Hit(lib, conn, number, req, e, refs, i, None, clock, NO_FAULTS);
    var ccReq, ccResp := DirectivesOf(req.header), DirectivesOf(e.data.header);
    var f := FreshnessFor(lib, e, req, clock);
    assert RouteOf(f, ccReq, ccResp, clock.swr).ServeHit?;
    ServedPointwise(e, f, ccResp, clock.served, STATUS);
  }
}
