/**
  What client and origin see, in the words and numbers of the messages: the status a reply shows,
  which requests invalidate and what they spare, what is kept of a header, for how long a reply is
  served, and the Age it carries.
 */
module Wire {
  import opened Base
  import opened Http
  import opened Protocol
  import opened Freshness
  import opened Service
  import opened Cases
  import opened Digits
  import opened Directives
  import Csv
  import Frame
  import Integrity
  import Invalidation
  import Provenance
  import Resurrection
  import Vary
  import CC = CacheControl

  // ----- Status -----

  function StatusLine(r: Reply): seq<string> {
    Values(r.header, "X-Httpcache-Status")
  }

  lemma StampText(r: Reply)
    ensures StatusLine(Stamped(r, HIT)) == ["HIT"] && Values(Stamped(r, HIT).header, "X-From-Cache") == ["1"]
    ensures StatusLine(Stamped(r, STALE)) == ["STALE"] && Values(Stamped(r, STALE).header, "X-From-Cache") == ["1"]
    ensures StatusLine(Stamped(r, REVALIDATED)) == ["REVALIDATED"]
    ensures Values(Stamped(r, REVALIDATED).header, "X-From-Cache") == ["1"]
    ensures StatusLine(Stamped(r, MISS)) == ["MISS"] && StatusLine(Stamped(r, BYPASS)) == ["BYPASS"]
  {
    assert "X-Httpcache-Status"[2] != "X-From-Cache"[2];
  }

  /** A GET without Range. */
  predicate Plainly(req: Request) {
    req.verb == "GET" && (Values(req.header, "Range") == [] || Values(req.header, "Range")[0] == "")
  }

  lemma PlainlyUnderstood(req: Request)
    ensures IsUnderstood(req) <==> Plainly(req)
  {
  }

  lemma MissLine(lib: Library, number: nat, req: Request, refs: seq<Ref>, index: int, upstream: Option<Reply>,
                 clock: Clock)
    ensures var v := Miss(lib, number, req, refs, index, upstream, clock);
            && (CC.OnlyIfCached(DirectivesOf(req.header)) ==>
                  v.outcome.Returned? && v.outcome.reply.status == 504 && v.outcome.reply.body == "" &&
                  StatusLine(v.outcome.reply) == ["BYPASS"] && v.exchange.None?)
            && (!CC.OnlyIfCached(DirectivesOf(req.header)) && v.outcome.Returned? ==>
                  StatusLine(v.outcome.reply) == ["MISS"])
  {
    if CC.OnlyIfCached(DirectivesOf(req.header)) {
      TimeoutLine();
    } else if upstream.Some? {
      var resp := TimedReply(lib, upstream.value, clock.end);
      StampText(resp);
      StampText(resp.(header := EndToEnd(resp.header)));
    }
  }

  lemma TimeoutLine()
    ensures GATEWAY_TIMEOUT.status == 504 && GATEWAY_TIMEOUT.body == "" && StatusLine(GATEWAY_TIMEOUT) == ["BYPASS"]
    ensures Get(GATEWAY_TIMEOUT.header, "Cache-Control") == "no-cache"
    ensures Get(GATEWAY_TIMEOUT.header, "Content-Length") == "0" && Get(GATEWAY_TIMEOUT.header, "Connection") == "close"
  {
    TimeoutShows();
    assert "Cache-Control"[1] == 'a' && "Content-Length"[1] == 'o' && "Connection"[1] == 'o' && STATUS[1] == '-';
  }

  lemma EndingLine(req: Request, e: Entry, f: Freshness, ccReq: CC.Directives, resp: Reply, clock: Clock)
    ensures var (source, s) := Ending(req, e, f, ccReq, resp, clock);
            var line := StatusLine(Stamped(source, s));
            && (req.verb == "GET" && resp.status == 304 ==> line == ["REVALIDATED"])
            && (line == ["STALE"] ==> resp.status in {500, 502, 503, 504})
            && line in {["STALE"], ["REVALIDATED"], ["MISS"], ["BYPASS"]}
  {
    var (source, s) := Ending(req, e, f, ccReq, resp, clock);
    StampText(source);
    assert !s.HIT?;
  }

  /** The status a reply shows, as it is written. Requests other than a GET without Range pass
      through as BYPASS. Without an entry it is MISS, or for only-if-cached a 504 with BYPASS.
      With an entry and no exchange it is HIT, or STALE while revalidating; after a 304 it is
      REVALIDATED; and STALE after an exchange only for the four error statuses. */
  lemma StatusWritten(lib: Library, conn: Conn, number: nat, req: Request, upstream: Option<Reply>, clock: Clock,
                      faults: Faults)
    ensures var v := RoundTrip(lib, conn, number, req, upstream, clock, faults);
            var l := Find(lib, conn, req, faults);
            v.outcome.Returned? ==>
              var line := StatusLine(v.outcome.reply);
              && (!Plainly(req) ==> line == ["BYPASS"] && upstream.Some? && Carries(v.outcome.reply, upstream.value))
              && (Plainly(req) && !l.Found? && CC.OnlyIfCached(DirectivesOf(req.header)) ==>
                    line == ["BYPASS"] && v.outcome.reply.status == 504)
              && (Plainly(req) && !l.Found? && !CC.OnlyIfCached(DirectivesOf(req.header)) ==> line == ["MISS"])
              && (Plainly(req) && l.Found? && v.exchange.None? ==> line == if v.job.Some? then ["STALE"] else ["HIT"])
              && (Plainly(req) && l.Found? && v.exchange.Some? ==>
                    upstream.Some? && (upstream.value.status == 304 ==> line == ["REVALIDATED"]) &&
                    (line == ["STALE"] ==> upstream.value.status in {500, 502, 503, 504}) && line != ["HIT"])
  {
    PlainlyUnderstood(req);
    var l := Find(lib, conn, req, faults);
    if !IsUnderstood(req) {
      if upstream.Some? {
        StampText(upstream.value);
        StampShows(upstream.value, BYPASS);
      }
    } else if l.Found? {
      HitLine(lib, conn, number, req, l.entry, l.refs, l.index, upstream, clock, faults);
    } else {
      MissLine(lib, number, req, RefsOf(l), IndexOf(l), upstream, clock);
    }
  }

  lemma HitLine(lib: Library, conn: Conn, number: nat, req: Request, e: Entry, refs: seq<Ref>, i: int,
                upstream: Option<Reply>, clock: Clock, faults: Faults)
    requires req.verb == "GET"
    ensures var v := Hit(lib, conn, number, req, e, refs, i, upstream, clock, faults);
            v.outcome.Returned? ==>
              var line := StatusLine(v.outcome.reply);
              && (v.exchange.None? ==> line == if v.job.Some? then ["STALE"] else ["HIT"])
              && (v.exchange.Some? ==>
                    upstream.Some? && (upstream.value.status == 304 ==> line == ["REVALIDATED"]) &&
                    (line == ["STALE"] ==> upstream.value.status in {500, 502, 503, 504}) && line != ["HIT"])
  {
    var ccReq, ccResp := DirectivesOf(req.header), DirectivesOf(e.data.header);
    var f := FreshnessFor(lib, e, req, clock);
    match RouteOf(f, ccReq, ccResp, clock.swr)
    case ServeHit => ServedPointwise(e, f, ccResp, clock.served, "Age");
    case ServeStale => StampText(e.data);
    case Revalidate =>
      if upstream.Some? {
        HitRevalidates(lib, conn, number, req, e, refs, i, upstream, clock, faults);
        EndingLine(Conditional(req, e.data.header), e, f, ccReq, TimedReply(lib, upstream.value, clock.end), clock);
      }
  }

  // ----- Invalidation -----

  predicate UnsafeSuccess(step: Step) {
    step.Foreground? && step.req.verb in {"POST", "PUT", "DELETE", "PATCH"} && step.upstream.Some? &&
    200 <= step.upstream.value.status < 400
  }

  /** The four unsafe methods, answered 2xx or 3xx, take the list of the target away; any other
      request that is not a GET, and a GET with Range, leaves the whole store as it is. */
  lemma UnsafeEmpties(lib: Library, w: World, step: Step)
    requires step.Foreground?
    ensures UnsafeSuccess(step) && step.req.url.key !in step.faults.undeletable ==>
              step.req.url.key !in Next(lib, w, step).conn
    ensures !UnsafeSuccess(step) && !Plainly(step.req) ==> Next(lib, w, step).conn == w.conn
  {
    PlainlyUnderstood(step.req);
    if UnsafeSuccess(step) && step.req.url.key !in step.faults.undeletable {
      Resurrection.InvalidationCuts(lib, w, step, step.req.url.key);
    }
  }

  /** The location fields lead to the key only at hosts that differ from the target's by more than
      the case of letters. */
  predicate OnlyOtherHosts(lib: Library, url: URL, h: Header, key: string) {
    forall field :: field in {"Location", "Content-Location"} && Get(h, field) != "" ==>
      var loc := lib.resolve(url, Get(h, field));
      loc.Some? && loc.value.key == key ==> !SameButCase(loc.value.hostname, url.hostname)
  }

  lemma OtherHostNoLocation(lib: Library, url: URL, h: Header, key: string)
    requires OnlyOtherHosts(lib, url, h, key)
    ensures !Invalidation.IsLocation(lib, url, h, key)
  {
    if Invalidation.IsLocation(lib, url, h, key) {
      var field :| field in {"Location", "Content-Location"} && Get(h, field) != "" &&
        lib.resolve(url, Get(h, field)).Some? &&
        SameOrigin(url, lib.resolve(url, Get(h, field)).value) && lib.resolve(url, Get(h, field)).value.key == key;
      var loc := lib.resolve(url, Get(h, field)).value;
      SameOriginIff(url, loc);
      SameButCaseBack(url.hostname, loc.hostname);
      assert false;
    }
  }

  lemma SameButCaseBack(s: string, t: string)
    requires SameButCase(s, t)
    ensures SameButCase(t, s)
  {
    forall i | 0 <= i < |t| ensures SameLetter(t[i], s[i]) {
      assert SameLetter(s[i], t[i]);
    }
  }

  /** No unsafe request reaches the stored replies of another host: neither the list of a URL key to
      which its locations lead only there, nor any entry on that list. */
  lemma OtherHostSpared(lib: Library, w: World, step: Step, key: string)
    requires Provenance.WorldOk(lib, w) && step.Foreground? && !Plainly(step.req) && step.upstream.Some?
    requires Invalidation.Separated(step.req.url.key) && Invalidation.Separated(key) && key != step.req.url.key
    requires Invalidation.AllSeparated(LocationKeys(lib, step.req.url, step.upstream.value.header))
    requires OnlyOtherHosts(lib, step.req.url, step.upstream.value.header, key)
    ensures Frame.Untouched(w.conn, Next(lib, w, step).conn, key)
    ensures forall r :: Integrity.OnList(w.conn, key, r) ==> Frame.Untouched(w.conn, Next(lib, w, step).conn, r.id)
  {
    PlainlyUnderstood(step.req);
    var url, h := step.req.url, step.upstream.value.header;
    Frame.OtherFrame(lib, w.conn, |w.trace|, step.req, step.upstream, step.clock, step.faults);
    Integrity.ShapeFromProvenance(lib, w);
    OtherHostNoLocation(lib, url, h, key);
    NotOnTrail(lib, w.conn, url, h, step.faults, key);
    forall r | Integrity.OnList(w.conn, key, r) ensures Frame.Untouched(w.conn, Next(lib, w, step).conn, r.id) {
      IdNotOnTrail(lib, w.conn, url, h, step.faults, key, r);
    }
  }

  lemma NotOnTrail(lib: Library, conn: Conn, url: URL, h: Header, faults: Faults, key: string)
    requires Invalidation.ListsMarked(conn) && Invalidation.Separated(url.key) && Invalidation.Separated(key)
    requires Invalidation.AllSeparated(LocationKeys(lib, url, h))
    requires key != url.key && !Invalidation.IsLocation(lib, url, h, key)
    ensures key !in Trail(lib, conn, url, h, RefsOrNil(conn, url.key, faults), faults)
  {
    Invalidation.DeletionsExact(lib, conn, url, h, faults);
    if key in Invalidation.Distinct(Trail(lib, conn, url, h, RefsOrNil(conn, url.key, faults), faults)) {
      var x :| (x == url.key || Invalidation.IsLocation(lib, url, h, x)) &&
               (key == x || key in Invalidation.IdsAt(conn, x, faults));
      var s := RefOfId(conn, x, key, faults);
      assert false;
    }
  }

  /** The ref behind an ID on a list. */
  lemma RefOfId(conn: Conn, x: string, id: string, faults: Faults) returns (s: Ref)
    requires Invalidation.ListsMarked(conn) && id in Invalidation.IdsAt(conn, x, faults)
    ensures Integrity.OnList(conn, x, s) && s.id == id && !Invalidation.Separated(id)
  {
    var refs := RefsOrNil(conn, x, faults);
    var i :| 0 <= i < |refs| && Invalidation.IdsAt(conn, x, faults)[i] == id;
    s := refs[i];
    assert Invalidation.IdsMarked(conn[x].refs);
  }

  lemma IdNotOnTrail(lib: Library, conn: Conn, url: URL, h: Header, faults: Faults, key: string, r: Ref)
    requires Invalidation.ListsMarked(conn) && Integrity.OneOwner(conn) && Integrity.OnList(conn, key, r)
    requires Invalidation.Separated(url.key) && Invalidation.AllSeparated(LocationKeys(lib, url, h))
    requires key != url.key && !Invalidation.IsLocation(lib, url, h, key)
    ensures r.id !in Trail(lib, conn, url, h, RefsOrNil(conn, url.key, faults), faults)
  {
    Invalidation.DeletionsExact(lib, conn, url, h, faults);
    if r.id in Invalidation.Distinct(Trail(lib, conn, url, h, RefsOrNil(conn, url.key, faults), faults)) {
      var x :| (x == url.key || Invalidation.IsLocation(lib, url, h, x)) &&
               (r.id == x || r.id in Invalidation.IdsAt(conn, x, faults));
      Invalidation.LocationKeysExact(lib, url, h, x);
      assert Invalidation.IdsMarked(conn[key].refs);
      if r.id in Invalidation.IdsAt(conn, x, faults) {
        var s := RefOfId(conn, x, r.id, faults);
      }
      assert false;
    }
  }

  // ----- What is stored -----

  /** In every run: no lineage starts at a reply whose first Cache-Control line says no-store, nor
      at a reply to a request that does. */
  lemma NoStoreNeverKept(lib: Library, steps: seq<Step>, id: string, items: Items)
    requires Vary.PermutesRefs(lib) && Valid(items)
    requires forall i :: 0 <= i < |steps| ==> Provenance.WellKeyed(steps[i])
    requires var conn := Run(lib, INIT, steps).conn; id in conn && conn[id].Stored?
    ensures var w := Run(lib, INIT, steps);
            var e := w.conn[id].entry;
            Provenance.Indexed(w.trace, e.lineage) &&
            var origin := w.trace[e.lineage[0]];
            (Get(origin.reply.header, "Cache-Control") == CC.Print(items) ||
             Get(origin.req.header, "Cache-Control") == CC.Print(items)) ==> !Named(items, "no-store")
  {
    var w := Run(lib, INIT, steps);
    Provenance.RunOk(lib, steps);
    assert Provenance.BlobOk(lib, w.trace, id, w.conn[id]);
    var origin := w.trace[w.conn[id].entry.lineage[0]];
    assert Provenance.Admitted(lib, origin);
    AdmittedSaysNoNoStore(lib, origin, items);
  }

  lemma AdmittedSaysNoNoStore(lib: Library, ex: Exchange, items: Items)
    requires Provenance.Admitted(lib, ex) && Valid(items)
    ensures (Get(ex.reply.header, "Cache-Control") == CC.Print(items) ||
             Get(ex.req.header, "Cache-Control") == CC.Print(items)) ==> !Named(items, "no-store")
  {
    TimedDirectives(lib, ex.reply, ex.end);
    if Get(ex.reply.header, "Cache-Control") == CC.Print(items) {
      FlagsRead(ex.reply.header, items);
    }
    if Get(ex.req.header, "Cache-Control") == CC.Print(items) {
      FlagsRead(ex.req.header, items);
    }
  }

  /** A field belongs to one connection: it is on the fixed list, or the reply's own first
      Connection line names it. */
  predicate OfConnection(h: Header, field: string) {
    field in {"Connection", "Proxy-Connection", "Keep-Alive", "TE", "Transfer-Encoding", "Upgrade",
              "Proxy-Authenticate", "Proxy-Authentication-Info", "Proxy-Authorization"} ||
    exists name :: name in Csv.Split(Get(h, "Connection")) && field == CanonicalKey(name)
  }

  /** Every field of a reply is stored with all its lines but those of one connection. */
  lemma StoredHeader(lib: Library, req: Request, resp: Reply, lineage: seq<nat>, refs: seq<Ref>, index: int,
                     start: Time, end: Time, field: string)
    ensures var stored := StoreEffect(lib, req, resp, lineage, refs, index, start, end).entry.data.header;
            && (field in stored <==> field in resp.header && !OfConnection(resp.header, field))
            && (field in stored ==> stored[field] == resp.header[field])
  {
    assert field in ConnectionFields(resp.header) <==>
      exists name :: name in Csv.Split(Get(resp.header, "Connection")) && field == CanonicalKey(name);
  }

  lemma EndToEndLines(h: Header, field: string)
    ensures Values(EndToEnd(h), field) == if OfConnection(h, field) then [] else Values(h, field)
  {
    assert field in ConnectionFields(h) <==>
      exists name :: name in Csv.Split(Get(h, "Connection")) && field == CanonicalKey(name);
  }

  /** Date repair, the stamps and the removal of connection fields, as the client sees them. */
  lemma TimedLines(lib: Library, reply: Reply, end: Time, s: CacheStatus, field: string)
    requires field !in {"X-Httpcache-Status", "X-From-Cache", "Date"}
    ensures var resp := TimedReply(lib, reply, end);
            && Values(Stamped(resp, s).header, field) == Values(reply.header, field)
            && Values(Stamped(resp.(header := EndToEnd(resp.header)), s).header, field)
               == if OfConnection(reply.header, field) then [] else Values(reply.header, field)
  {
    var resp := TimedReply(lib, reply, end);
    EndToEndLines(resp.header, field);
    assert "Connection" != "Date" by {
      assert |"Connection"| != |"Date"|;
    }
    assert Get(resp.header, "Connection") == Get(reply.header, "Connection");
    StampedValues(resp, s, field);
    StampedValues(resp.(header := EndToEnd(resp.header)), s, field);
  }

  /** What a client sees of upstream's reply: every field with all its lines, but for those of one
      connection when the reply is stored. */
  lemma UpstreamShows(lib: Library, conn: Conn, number: nat, req: Request, refs: seq<Ref>, index: int, reply: Reply,
                      clock: Clock, faults: Faults, field: string)
    requires field !in {"X-Httpcache-Status", "X-From-Cache", "Date"}
    ensures var v := Miss(lib, number, req, refs, index, Some(reply), clock);
            v.exchange.Some? ==>
              v.outcome.Returned? &&
              Values(v.outcome.reply.header, field)
              == if v.effect.Store? && OfConnection(reply.header, field) then [] else Values(reply.header, field)
    ensures var v := Unrecognized(lib, conn, req, Some(reply), clock, faults);
            v.outcome.Returned? && Values(v.outcome.reply.header, field) == Values(reply.header, field)
  {
    TimedLines(lib, reply, clock.end, MISS, field);
    StampedValues(reply, BYPASS, field);
  }

  /** The same after a validation that ends in upstream's reply. */
  lemma ValidationShows(lib: Library, conn: Conn, number: nat, req: Request, e: Entry, f: Freshness,
                        ccReq: CC.Directives, refs: seq<Ref>, index: int, reply: Reply, clock: Clock, faults: Faults,
                        field: string)
    requires field !in {"X-Httpcache-Status", "X-From-Cache", "Date"}
    ensures var v := Revalidated(lib, conn, number, req, e, f, ccReq, refs, index, Some(reply), clock, faults);
            v.outcome.Returned? &&
            (StatusLine(v.outcome.reply) in {["MISS"], ["BYPASS"]} ==>
               Values(v.outcome.reply.header, field)
               == if v.effect.Store? && OfConnection(reply.header, field) then [] else Values(reply.header, field))
  {
    var resp := TimedReply(lib, reply, clock.end);
    var (source, s) := Ending(req, e, f, ccReq, resp, clock);
    StampText(source);
    TimedLines(lib, reply, clock.end, s, field);
  }

  /** An unquoted no-cache argument withholds that one field. */
  lemma WithheldToken(h: Header, items: Items, k: nat, field: string)
    requires Valid(items) && Get(h, "Cache-Control") == CC.Print(items) && LastOfName(items, k)
    requires items[k] == CC.Item("no-cache", CC.Token(field))
    ensures Withheld(DirectivesOf(h)) == {CanonicalKey(field)}
  {
    NoCacheArgument(h, items, k);
    assert CC.ValidItem(items[k]);
    Csv.TokenIsElement(field);
    assert Csv.Join([field], ", ") == field;
    Csv.SplitJoin([field]);
  }

  // ----- For how long -----

  /** Answered with the line HIT and this status and body. */
  predicate AsHit(v: Verdict, data: Reply) {
    v.outcome.Returned? && StatusLine(v.outcome.reply) == ["HIT"] && Carries(v.outcome.reply, data)
  }

  /** Nothing but a lifetime: no directive that forces or delays revalidation. */
  predicate Quiet(cc: CC.Directives) {
    !CC.NoCache(cc) && !CC.MustRevalidate(cc) && !CC.Immutable(cc) && CC.StaleWhileRevalidate(cc).None?
  }

  /** Received at `t` with that Date and no Age line. */
  predicate BornAt(lib: Library, e: Entry, t: Time) {
    Get(e.data.header, "Age") == "" && DateOf(lib, e.data.header) == t && e.requestedAt == t && e.receivedAt == t
  }

  lemma AgeOfBorn(lib: Library, e: Entry, t: Time, now: Time)
    requires BornAt(lib, e, t) && t <= now < t + MAX_DURATION
    ensures CurrentAge(lib, e, Still(now)) == Age(now - t, now)
  {
  }

  lemma QuietRoute(f: Freshness, ccReq: CC.Directives, ccResp: CC.Directives, now: Time)
    requires Quiet(ccResp) && !CC.NoCache(ccReq) && !CC.OnlyIfCached(ccReq)
    ensures RouteOf(f, ccReq, ccResp, now) == if f.isStale then Revalidate else ServeHit
  {
  }

  /** For such an entry a request is a hit exactly when the verdict on its age is fresh. */
  lemma QuietHit(lib: Library, conn: Conn, number: nat, req: Request, e: Entry, refs: seq<Ref>, i: int, t: Time,
                 now: Time)
    requires BornAt(lib, e, t) && t <= now < t + MAX_DURATION && Quiet(DirectivesOf(e.data.header))
    requires var ccReq := DirectivesOf(req.header);
             !CC.NoCache(ccReq) && !CC.OnlyIfCached(ccReq) && CC.MaxAge(ccReq) != Some(0)
    ensures var v := Hit(lib, conn, number, req, e, refs, i, None, Still(now), NO_FAULTS);
            var ccReq := DirectivesOf(req.header);
            var life := UsefulLife(lib, e, ccReq, DirectivesOf(e.data.header));
            AsHit(v, e.data) <==> !StaleAt(now - t, life, MinFreshOf(ccReq), CC.MaxStale(ccReq))
  {
    var ccReq, ccResp := DirectivesOf(req.header), DirectivesOf(e.data.header);
    AgeOfBorn(lib, e, t, now);
    QuietRoute(FreshnessFor(lib, e, req, Still(now)), ccReq, ccResp, now);
    ServedPointwise(e, FreshnessFor(lib, e, req, Still(now)), ccResp, now, "Age");
  }

  /** From the empty cache: a reply without directives, stored on a plain GET, answers the same GET
      later as a hit exactly while its age is below its lifetime. */
  lemma ServedWhileFresh(lib: Library, url: URL, reply: Reply, t: Time, now: Time)
    requires Vary.PermutesRefs(lib) && '#' !in url.key && Simple(lib, reply, t) && Values(reply.header, "Vary") == []
    requires Get(reply.header, "Age") == "" && Quiet(DirectivesOf(reply.header)) && t <= now < t + MAX_DURATION
    ensures var w := Next(lib, INIT, Foreground(Plain(url), Some(reply), Still(t), NO_FAULTS));
            var v := RoundTrip(lib, w.conn, 1, Plain(url), None, Still(now), NO_FAULTS);
            var e := Entry(Vary.VaryKey(lib, url.key, map[]), reply, t, t, [0]);
            AsHit(v, reply) <==> now - t < UsefulLife(lib, e, map[], DirectivesOf(reply.header))
  {
    PlainDirectives(url);
    FirstGet(lib, Plain(url), reply, t);
    var w := Next(lib, INIT, Foreground(Plain(url), Some(reply), Still(t), NO_FAULTS));
    var e := Entry(Vary.VaryKey(lib, url.key, map[]), reply, t, t, [0]);
    var r := Ref(Vary.VaryKey(lib, url.key, map[]), "", map[], t);
    Vary.VaryKeyHasHash(lib, url.key, map[]);
    Resurrection.FoundSingleton(lib, w.conn, r, e, Plain(url));
    EmptyUndirected();
    QuietHit(lib, w.conn, 1, Plain(url), e, [r], 0, t, now);
  }

  /** Expires alone: a hit exactly until that time. */
  lemma ServedUntilExpires(lib: Library, url: URL, reply: Reply, t: Time, expires: Time, now: Time)
    requires Vary.PermutesRefs(lib) && '#' !in url.key && Simple(lib, reply, t) && Values(reply.header, "Vary") == []
    requires Get(reply.header, "Age") == "" && Get(reply.header, "Cache-Control") == "" && t <= now < t + MAX_DURATION
    requires ParseDate(lib, Get(reply.header, "Expires")) == Some(expires) && expires > t
    ensures var w := Next(lib, INIT, Foreground(Plain(url), Some(reply), Still(t), NO_FAULTS));
            var v := RoundTrip(lib, w.conn, 1, Plain(url), None, Still(now), NO_FAULTS);
            AsHit(v, reply) <==> now < expires
  {
    ServedWhileFresh(lib, url, reply, t, now);
    LifetimeRules(lib, Entry(Vary.VaryKey(lib, url.key, map[]), reply, t, t, [0]), map[], map[]);
  }

  /** Last-Modified alone: a hit for a tenth of the time since, to half a second. */
  lemma ServedByHeuristic(lib: Library, url: URL, reply: Reply, t: Time, modified: Time, now: Time)
    requires Vary.PermutesRefs(lib) && '#' !in url.key && Simple(lib, reply, t) && Values(reply.header, "Vary") == []
    requires Get(reply.header, "Age") == "" && Get(reply.header, "Cache-Control") == "" && t <= now < t + MAX_DURATION
    requires Get(reply.header, "Expires") == ""
    requires ParseDate(lib, Get(reply.header, "Last-Modified")) == Some(modified)
    requires modified < t <= modified + MAX_DURATION
    ensures var w := Next(lib, INIT, Foreground(Plain(url), Some(reply), Still(t), NO_FAULTS));
            var v := RoundTrip(lib, w.conn, 1, Plain(url), None, Still(now), NO_FAULTS);
            var hit := AsHit(v, reply);
            && (10 * (now - t) <= t - modified - 5_000_000_010 ==> hit)
            && (10 * (now - t) > t - modified + 5_000_000_000 ==> !hit)
  {
    ServedWhileFresh(lib, url, reply, t, now);
    LifetimeRules(lib, Entry(Vary.VaryKey(lib, url.key, map[]), reply, t, t, [0]), map[], map[]);
  }

  /** max-age on the line: a hit for exactly that many seconds. */
  lemma ServedForMaxAge(lib: Library, url: URL, reply: Reply, t: Time, digits: string, now: Time)
    requires Vary.PermutesRefs(lib) && '#' !in url.key && Simple(lib, reply, t) && Values(reply.header, "Vary") == []
    requires Get(reply.header, "Age") == "" && t <= now < t + MAX_DURATION
    requires digits != "" && AllDigits(digits) && 0 < Positional(digits) <= 9_223_372_036
    requires Get(reply.header, "Cache-Control") == CC.Print([CC.Item("max-age", CC.Token(digits))])
    ensures var w := Next(lib, INIT, Foreground(Plain(url), Some(reply), Still(t), NO_FAULTS));
            var v := RoundTrip(lib, w.conn, 1, Plain(url), None, Still(now), NO_FAULTS);
            AsHit(v, reply) <==> now - t < Positional(digits) * 1_000_000_000
  {
    OneSecondsItem(reply.header, "max-age", digits);
    ServedWhileFresh(lib, url, reply, t, now);
    LifetimeRules(lib, Entry(Vary.VaryKey(lib, url.key, map[]), reply, t, t, [0]), map[], DirectivesOf(reply.header));
  }

  lemma MaxAgeToken()
    ensures IsToken("max-age") && IsToken("min-fresh") && IsToken("max-stale")
  {
  }

  /** A line of one directive with seconds has them, and no other directive. */
  lemma OneSecondsItem(h: Header, name: string, digits: string)
    requires name in {"max-age", "min-fresh", "max-stale"}
    requires digits != "" && AllDigits(digits) && Positional(digits) <= 9_223_372_036
    requires Get(h, "Cache-Control") == CC.Print([CC.Item(name, CC.Token(digits))])
    ensures var cc := DirectivesOf(h);
            var nanoseconds := Positional(digits) * 1_000_000_000;
            && Quiet(cc) && !CC.OnlyIfCached(cc)
            && CC.MaxAge(cc) == (if name == "max-age" then Some(nanoseconds) else None)
            && CC.MinFresh(cc) == (if name == "min-fresh" then Some(nanoseconds) else None)
            && CC.MaxStale(cc) == (if name == "max-stale" then nanoseconds else 0)
  {
    var items := [CC.Item(name, CC.Token(digits))];
    DigitsAreToken(digits);
    MaxAgeToken();
    FlagsRead(h, items);
    SecondsRead(h, items, 0, digits);
    AbsentRead(h, items);
    OtherNames(name);
    assert forall other :: Named(items, other) <==> other == name by {
      assert items[0].name == name;
    }
  }

  lemma OtherNames(name: string)
    requires name in {"max-age", "min-fresh", "max-stale"}
    ensures name !in {"no-cache", "must-revalidate", "immutable", "stale-while-revalidate", "only-if-cached"}
    ensures "max-age" != "min-fresh" && "max-age" != "max-stale" && "min-fresh" != "max-stale"
  {
    assert name[0] == 'm' && "must-revalidate"[1] == 'u' && name[1] != 'u';
    assert |"max-age"| == 7 && |"min-fresh"| == 9 && |"max-stale"| == 9 && "min-fresh"[1] != "max-stale"[1];
  }

  /** The verdict where the request asks at most one of the three things. */
  lemma OneLimit(lib: Library, e: Entry, ccReq: CC.Directives, ccResp: CC.Directives, age: Duration)
    requires age >= 0
    ensures var life := UsefulLife(lib, e, map[], ccResp);
            var hit := !StaleAt(age, UsefulLife(lib, e, ccReq, ccResp), MinFreshOf(ccReq), CC.MaxStale(ccReq));
            var limit, left, extra := CC.MaxAge(ccReq), CC.MinFresh(ccReq), CC.MaxStale(ccReq);
            && (limit.Some? && limit.value > 0 && left.None? && extra == 0 ==>
                (hit <==> age < life && age < limit.value))
            && (limit.None? && left.Some? && left.value > 0 && extra == 0 ==> (hit <==> life - age >= left.value))
            && (limit.None? && left.None? && extra > 0 && life + extra <= MAX_DURATION ==>
                (hit <==> age < life + extra))
  {
    LifetimeRules(lib, e, ccReq, ccResp);
  }

  /** One directive, with a positive number of seconds. */
  predicate AsksOnly(req: Request, name: string, digits: string) {
    digits != "" && AllDigits(digits) && 0 < Positional(digits) <= 9_223_372_036 &&
    Get(req.header, "Cache-Control") == CC.Print([CC.Item(name, CC.Token(digits))])
  }

  /** max-age=n of a request limits the age to n seconds. `life` is the lifetime for a request that
      asks nothing. */
  lemma RequestMaxAge(lib: Library, conn: Conn, number: nat, req: Request, e: Entry, refs: seq<Ref>, i: int, t: Time,
                      now: Time, digits: string)
    requires BornAt(lib, e, t) && t <= now < t + MAX_DURATION && Quiet(DirectivesOf(e.data.header))
    requires AsksOnly(req, "max-age", digits)
    ensures var v := Hit(lib, conn, number, req, e, refs, i, None, Still(now), NO_FAULTS);
            var life, n := UsefulLife(lib, e, map[], DirectivesOf(e.data.header)), Positional(digits) * 1_000_000_000;
            AsHit(v, e.data) <==> now - t < life && now - t < n
  {
    OneSecondsItem(req.header, "max-age", digits);
    OtherNames("max-age");
    QuietHit(lib, conn, number, req, e, refs, i, t, now);
    OneLimit(lib, e, DirectivesOf(req.header), DirectivesOf(e.data.header), now - t);
  }

  /** min-fresh=n wants n seconds left. */
  lemma RequestMinFresh(lib: Library, conn: Conn, number: nat, req: Request, e: Entry, refs: seq<Ref>, i: int, t: Time,
                        now: Time, digits: string)
    requires BornAt(lib, e, t) && t <= now < t + MAX_DURATION && Quiet(DirectivesOf(e.data.header))
    requires AsksOnly(req, "min-fresh", digits)
    ensures var v := Hit(lib, conn, number, req, e, refs, i, None, Still(now), NO_FAULTS);
            var life, n := UsefulLife(lib, e, map[], DirectivesOf(e.data.header)), Positional(digits) * 1_000_000_000;
            AsHit(v, e.data) <==> life - (now - t) >= n
  {
    OneSecondsItem(req.header, "min-fresh", digits);
    OtherNames("min-fresh");
    QuietHit(lib, conn, number, req, e, refs, i, t, now);
    OneLimit(lib, e, DirectivesOf(req.header), DirectivesOf(e.data.header), now - t);
  }

  /** max-stale=n allows n seconds more. */
  lemma RequestMaxStale(lib: Library, conn: Conn, number: nat, req: Request, e: Entry, refs: seq<Ref>, i: int, t: Time,
                        now: Time, digits: string)
    requires BornAt(lib, e, t) && t <= now < t + MAX_DURATION && Quiet(DirectivesOf(e.data.header))
    requires AsksOnly(req, "max-stale", digits)
    ensures var v := Hit(lib, conn, number, req, e, refs, i, None, Still(now), NO_FAULTS);
            var life, n := UsefulLife(lib, e, map[], DirectivesOf(e.data.header)), Positional(digits) * 1_000_000_000;
            life + n <= MAX_DURATION ==> (AsHit(v, e.data) <==> now - t < life + n)
  {
    OneSecondsItem(req.header, "max-stale", digits);
    OtherNames("max-stale");
    QuietHit(lib, conn, number, req, e, refs, i, t, now);
    OneLimit(lib, e, DirectivesOf(req.header), DirectivesOf(e.data.header), now - t);
  }

  // ----- The Age line -----

  /** A hit carries its age in whole seconds, as a decimal number without leading zeros; where the
      exact age fits, that one, at the reading at which it is written. */
  lemma AgeLine(lib: Library, e: Entry, ccReq: CC.Directives, ccResp: CC.Directives, clock: Clock)
    requires CC.MaxAge(ccReq) != Some(0)
    ensures var f := Calculate(lib, e, ccReq, ccResp, clock);
            var line := Get(Served(e, f, ccResp, clock.served).header, "Age");
            && ParseInt(line) == Number(Max(Adjusted(f.age, clock.served), 0) / 1_000_000_000)
            && AllDigits(line) && (line == "0" || (line != "" && line[0] != '0'))
            && (Steady(e, clock, clock.served) && NoUnderflow(e.data.header, e.requestedAt, e.receivedAt) &&
                ExactAgeAt(lib, e, clock.served) <= MAX_DURATION ==>
                  ParseInt(line) == Number(ExactAgeAt(lib, e, clock.served) / 1_000_000_000))
  {
    var f := Calculate(lib, e, ccReq, ccResp, clock);
    ServedPointwise(e, f, ccResp, clock.served, "Age");
    DecimalReads(AgeSeconds(f.age, clock.served));
    DecimalRoundTrip(AgeSeconds(f.age, clock.served));
    if Steady(e, clock, clock.served) {
      AdjustedExact(lib, e, clock, clock.served);
      AgeExact(e.data.header, DateOf(lib, e.data.header), e.requestedAt, e.receivedAt, clock.served);
      if NoUnderflow(e.data.header, e.requestedAt, e.receivedAt) && ExactAgeAt(lib, e, clock.served) <= MAX_DURATION {
        AgeExactIff(e.data.header, DateOf(lib, e.data.header), e.requestedAt, e.receivedAt, clock.served);
      }
    }
  }

  // ----- The Age field received -----

  /** The seconds an Age field counts for: its number, up to the 64-bit limits, and 0 for no field or
      one that is no number. */
  lemma AgeFieldReads(h: Header, digits: string, c: char, more: string)
    requires AllDigits(digits) && Positional(digits) <= MAX_UINT64
    ensures Get(h, "Age") == "" ==> AgeField(h) == 0
    ensures digits != "" && Get(h, "Age") == digits ==> AgeField(h) == Min(Positional(digits), MAX_DURATION)
    ensures digits != "" && Get(h, "Age") == "-" + digits ==> AgeField(h) == Max(-Positional(digits), MIN_DURATION)
    ensures !('0' <= c <= '9') && (digits == "" ==> c != '-' && c != '+') && Get(h, "Age") == digits + [c] + more ==>
              AgeField(h) == 0
  {
    if digits != "" {
      AtoiReads(digits);
    }
    if !('0' <= c <= '9') && (digits == "" ==> c != '-' && c != '+') {
      AtoiRejects(digits, c, more);
    }
  }
}
