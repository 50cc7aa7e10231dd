/**
  Inputs for the properties the code does not have: a run that brings an invalidated reply back,
  and single answers that a directive or an age should have ruled out. Every clock shows the
  same time `t` throughout.
 */
module Cases {
  import opened Base
  import opened Http
  import opened Protocol
  import opened Freshness
  import opened Service
  import Csv
  import Provenance
  import QuotedString
  import Resurrection
  import Vary
  import CC = CacheControl

  function Still(t: Time): Clock {
    Clock(t, t, t, t, t, t, t)
  }

  function Plain(url: URL): Request {
    Request("GET", url, map[])
  }

  function Asking(url: URL, line: string): Request {
    Request("GET", url, map["Cache-Control" := [line]])
  }

  // ----- Directives of one line -----

  const SWR_60: string := "stale-while-revalidate=60"

  lemma Sixty()
    ensures CC.DeltaSeconds("60") == Some(60 * SECOND) && IsToken("60")
  {
    assert "60"[1..] == "0" && "0"[1..] == "";
    assert ScanDigits("0", 6) == Number(60);
    assert ScanDigits("60", 0) == ScanDigits("0", 6);
  }

  lemma WithSixty(h: Header, name: string)
    requires IsToken(name) && Get(h, "Cache-Control") == name + "=60"
    ensures DirectivesOf(h) == map[name := "60"] && CC.DurationOf(DirectivesOf(h), name) == Some(60 * SECOND)
  {
    Sixty();
    var item := CC.Item(name, CC.Token("60"));
    assert CC.PrintItem(item) == name + "=60";
    CC.ParseOne(item);
  }

  lemma WithName(h: Header, name: string)
    requires IsToken(name) && Get(h, "Cache-Control") == name
    ensures DirectivesOf(h) == map[name := ""]
  {
    CC.ParseOne(CC.Item(name, CC.Absent));
  }

  // ----- Single answers -----

  /** Received at `t` with that Date, and with no lifetime of its own. */
  predicate BornDead(lib: Library, e: Entry, t: Time) {
    var h := e.data.header;
    Get(h, "Age") == "" && Get(h, "Expires") == "" && Get(h, "Last-Modified") == "" &&
    DateOf(lib, h) == t && e.requestedAt == t && e.receivedAt == t
  }

  /** No directive that changes what an age is measured against. */
  predicate Undirected(cc: CC.Directives) {
    CC.MaxAge(cc).None? && CC.MinFresh(cc).None? && CC.MaxStale(cc) == 0
  }

  lemma NoLife(lib: Library, e: Entry, t: Time, now: Time, ccReq: CC.Directives, ccResp: CC.Directives)
    requires BornDead(lib, e, t) && Undirected(ccReq) && CC.MaxAge(ccResp).None? && t <= now < t + 60 * SECOND
    ensures Calculate(lib, e, ccReq, ccResp, Still(now)) == Freshness(true, Age(now - t, now), 0)
  {
    assert CurrentAge(lib, e, Still(now)) == Age(now - t, now);
    assert Fallback(lib, e, ccResp) == 0;
    assert UsefulLife(lib, e, ccReq, ccResp) == 0;
  }

  /** Only a window of a minute is left to serve in. */
  predicate WindowOnly(ccResp: CC.Directives) {
    CC.MaxAge(ccResp).None? && !CC.MustRevalidate(ccResp) && !CC.NoCacheUnqualified(ccResp) && !CC.Immutable(ccResp) &&
    CC.StaleWhileRevalidate(ccResp) == Some(60 * SECOND)
  }

  lemma SwrWindow(h: Header)
    requires Get(h, "Cache-Control") == SWR_60
    ensures WindowOnly(DirectivesOf(h))
  {
    SwrToken();
    WithSixty(h, "stale-while-revalidate");
    assert "no-cache"[0] == 'n' && "max-age"[0] == 'm' && "stale-while-revalidate"[0] == 's' && "immutable"[0] == 'i';
    assert "must-revalidate"[0] == 'm';
  }

  lemma SwrToken()
    ensures IsToken("stale-while-revalidate")
  {
  }

  lemma EmptyUndirected()
    ensures Undirected(map[])
  {
  }

  lemma NoCacheUndirected()
    ensures Undirected(map["no-cache" := ""])
  {
    assert "no-cache"[0] == 'n' && "max-age"[0] == 'm' && "min-fresh"[0] == 'm' && "max-stale"[0] == 'm';
  }

  /** Within its window the entry is served stale, whatever no-cache the request has. */
  lemma WindowRoute(lib: Library, e: Entry, t: Time, now: Time, ccReq: CC.Directives, ccResp: CC.Directives)
    requires BornDead(lib, e, t) && WindowOnly(ccResp) && Undirected(ccReq) && !CC.OnlyIfCached(ccReq)
    requires t <= now < t + 60 * SECOND
    ensures var f := Calculate(lib, e, ccReq, ccResp, Still(now));
            f == Freshness(true, Age(now - t, now), 0) && RouteOf(f, ccReq, ccResp, now).ServeStale?
  {
    NoLife(lib, e, t, now, ccReq, ccResp);
  }

  /** A request no-cache answered without contact. */
  lemma NoCacheServed(lib: Library, conn: Conn, url: URL, e: Entry, t: Time)
    requires BornDead(lib, e, t) && Get(e.data.header, "Cache-Control") == SWR_60
    ensures WithoutContact(Hit(lib, conn, 1, Asking(url, "no-cache"), e, [], 0, None, Still(t), NO_FAULTS))
  {
    WithName(Asking(url, "no-cache").header, "no-cache");
    HitWithoutContact(lib, conn, 1, Asking(url, "no-cache"), e, [], 0, None, Still(t), NO_FAULTS);
    assert "no-cache"[0] != "only-if-cached"[0];
    NoCacheUndirected();
    SwrWindow(e.data.header);
    WindowRoute(lib, e, t, t, map["no-cache" := ""], DirectivesOf(e.data.header));
  }

  lemma AnyStalenessRoute(lib: Library, e: Entry, t: Time, ccReq: CC.Directives, ccResp: CC.Directives)
    requires BornDead(lib, e, t) && CC.MaxAge(ccReq).None? && CC.MaxAge(ccResp).None?
    requires MinFreshOf(ccReq) == 0 && !CC.NoCache(ccReq) && CC.MaxStale(ccReq) == MAX_DURATION
    requires !CC.NoCacheUnqualified(ccResp)
    ensures CurrentAge(lib, e, Still(t)).value == 0 == UsefulLife(lib, e, ccReq, ccResp)
    ensures !RouteOf(Calculate(lib, e, ccReq, ccResp, Still(t)), ccReq, ccResp, t).Revalidate?
  {
    assert CurrentAge(lib, e, Still(t)) == Age(0, t);
    assert Fallback(lib, e, ccResp) == 0;
  }

  /** must-revalidate past the lifetime, answered without contact for a max-stale. */
  lemma MustRevalidateServed(lib: Library, conn: Conn, url: URL, e: Entry, t: Time)
    requires BornDead(lib, e, t) && Get(e.data.header, "Cache-Control") == "must-revalidate"
    ensures var req := Asking(url, "max-stale");
            var ccResp := DirectivesOf(e.data.header);
            && CC.MustRevalidate(ccResp)
            && CurrentAge(lib, e, Still(t)).value >= UsefulLife(lib, e, DirectivesOf(req.header), ccResp)
            && WithoutContact(Hit(lib, conn, 1, req, e, [], 0, None, Still(t), NO_FAULTS))
  {
    MaxStaleLine(Asking(url, "max-stale").header);
    MustRevalidateLine(e.data.header);
    AnyStalenessServed(lib, conn, Asking(url, "max-stale"), e, t);
  }

  lemma AnyStalenessServed(lib: Library, conn: Conn, req: Request, e: Entry, t: Time)
    requires BornDead(lib, e, t)
    requires var ccReq, ccResp := DirectivesOf(req.header), DirectivesOf(e.data.header);
             CC.MaxAge(ccReq).None? && CC.MaxAge(ccResp).None? && MinFreshOf(ccReq) == 0 && !CC.NoCache(ccReq) &&
             CC.MaxStale(ccReq) == MAX_DURATION && !CC.NoCacheUnqualified(ccResp)
    ensures CurrentAge(lib, e, Still(t)).value
            >= UsefulLife(lib, e, DirectivesOf(req.header), DirectivesOf(e.data.header))
    ensures WithoutContact(Hit(lib, conn, 1, req, e, [], 0, None, Still(t), NO_FAULTS))
  {
    AnyStalenessRoute(lib, e, t, DirectivesOf(req.header), DirectivesOf(e.data.header));
    HitWithoutContact(lib, conn, 1, req, e, [], 0, None, Still(t), NO_FAULTS);
  }

  lemma MaxStaleLine(h: Header)
    requires Get(h, "Cache-Control") == "max-stale"
    ensures var cc := DirectivesOf(h);
            CC.MaxAge(cc).None? && MinFreshOf(cc) == 0 && !CC.NoCache(cc) && CC.MaxStale(cc) == MAX_DURATION
  {
    WithName(h, "max-stale");
    assert |"max-stale"| == 9 && |"max-age"| == 7 && "min-fresh"[1] == 'i' && "max-stale"[1] == 'a' &&
           "no-cache"[0] == 'n';
  }

  lemma MustRevalidateLine(h: Header)
    requires Get(h, "Cache-Control") == "must-revalidate"
    ensures var cc := DirectivesOf(h);
            CC.MaxAge(cc).None? && CC.MustRevalidate(cc) && !CC.NoCacheUnqualified(cc)
  {
    WithName(h, "must-revalidate");
    assert |"must-revalidate"| == 15 && |"no-cache"| == 8 && |"max-age"| == 7;
  }

  /** An Age field that overflows, served as a hit. */
  lemma OverflowServed(lib: Library, conn: Conn, url: URL, e: Entry, t: Time)
    requires Get(e.data.header, "Age") == "9223372037" && Get(e.data.header, "Cache-Control") == "max-age=60"
    requires DateOf(lib, e.data.header) == t && e.requestedAt == t && e.receivedAt == t
    ensures ExactAge(e.data.header, t, t, t, t) > MAX_DURATION
    ensures WithoutContact(Hit(lib, conn, 1, Plain(url), e, [], 0, None, Still(t), NO_FAULTS))
    ensures Hit(lib, conn, 1, Plain(url), e, [], 0, None, Still(t), NO_FAULTS).job.None?
  {
    AgeOverflows(e.data.header, t);
    WithSixty(e.data.header, "max-age");
    MaxAgeSixty(DirectivesOf(e.data.header));
    EmptyUndirected();
    var f := FreshnessFor(lib, e, Plain(url), Still(t));
    assert UsefulLife(lib, e, map[], DirectivesOf(e.data.header)) == 60 * SECOND;
    assert CurrentAge(lib, e, Still(t)).value == 0;
    assert !f.isStale;
    HitWithoutContact(lib, conn, 1, Plain(url), e, [], 0, None, Still(t), NO_FAULTS);
  }

  lemma MaxAgeSixty(cc: CC.Directives)
    requires cc == map["max-age" := "60"] && CC.MaxAge(cc) == Some(60 * SECOND)
    ensures !CC.NoCache(cc) && !CC.MustRevalidate(cc)
  {
    assert "no-cache"[0] == 'n' && "max-age"[0] == 'm' && |"must-revalidate"| == 15 && |"max-age"| == 7;
  }

  // ----- An ancient Date -----

  /** Received at `t` with a Date 300 years before, a lifetime of a minute and no Age. */
  predicate Ancient(lib: Library, e: Entry, t: Time) {
    Get(e.data.header, "Age") == "" && DateOf(lib, e.data.header) == t - 9_460_800_000 * SECOND &&
    e.requestedAt == t && e.receivedAt == t
  }

  lemma AncientAges(lib: Library, e: Entry, t: Time, clock: Clock)
    requires Ancient(lib, e, t)
    ensures clock.resident == t ==> CurrentAge(lib, e, clock).value == MAX_DURATION
    ensures clock.resident == t + SECOND ==> CurrentAge(lib, e, clock).value < 0
    ensures t <= clock.resident ==> ExactAgeAt(lib, e, clock.resident) >= 9_460_800_000 * SECOND > MAX_DURATION
  {
    AncientDate(e.data.header, t);
  }

  /** No request directive but the lifetime of a minute, and the response has no no-cache. */
  predicate Minute(lib: Library, e: Entry, ccReq: CC.Directives, ccResp: CC.Directives) {
    Undirected(ccReq) && UsefulLife(lib, e, ccReq, ccResp) == 60 * SECOND && !CC.NoCache(ccReq) &&
      !CC.NoCache(ccResp) &&
    !CC.MustRevalidate(ccResp) && !CC.OnlyIfCached(ccReq)
  }

  lemma MinuteLine(lib: Library, e: Entry, url: URL)
    requires Get(e.data.header, "Cache-Control") == "max-age=60"
    ensures Minute(lib, e, DirectivesOf(Plain(url).header), DirectivesOf(e.data.header))
    ensures CC.StaleWhileRevalidate(DirectivesOf(e.data.header)).None?
  {
    WithSixty(e.data.header, "max-age");
    MaxAgeSixty(DirectivesOf(e.data.header));
    EmptyUndirected();
    PlainDirectives(url);
    assert "max-age"[0] != "stale-while-revalidate"[0];
  }

  /** Stale when received, fresh a second later. */
  lemma AncientTurnsFresh(lib: Library, url: URL, e: Entry, t: Time)
    requires Ancient(lib, e, t) && Get(e.data.header, "Cache-Control") == "max-age=60"
    ensures FreshnessFor(lib, e, Plain(url), Still(t)).isStale
    ensures !FreshnessFor(lib, e, Plain(url), Still(t + SECOND)).isStale
  {
    MinuteLine(lib, e, url);
    AncientAges(lib, e, t, Still(t));
    AncientAges(lib, e, t, Still(t + SECOND));
  }

  /** And then served as a hit, 300 years old. */
  lemma AncientServed(lib: Library, conn: Conn, url: URL, e: Entry, t: Time)
    requires Ancient(lib, e, t) && Get(e.data.header, "Cache-Control") == "max-age=60"
    ensures var v := Hit(lib, conn, 1, Plain(url), e, [], 0, None, Still(t + SECOND), NO_FAULTS);
            WithoutContact(v) && v.job.None? && ExactAgeAt(lib, e, t + SECOND) > MAX_DURATION
  {
    AncientTurnsFresh(lib, url, e, t);
    MinuteLine(lib, e, url);
    AncientAges(lib, e, t, Still(t + SECOND));
    HitWithoutContact(lib, conn, 1, Plain(url), e, [], 0, None, Still(t + SECOND), NO_FAULTS);
  }

  /** Served on an error status, when the policy reads the clock a second after the verdict. */
  lemma AncientOnError(lib: Library, conn: Conn, url: URL, e: Entry, t: Time, reply: Reply)
    requires Ancient(lib, e, t) && Get(e.data.header, "Cache-Control") == "max-age=60"
    requires reply.status == 503 && Get(reply.header, "Cache-Control") == "stale-if-error=60"
    ensures var clock := Still(t).(policy := t + SECOND);
            var v := Hit(lib, conn, 1, Plain(url), e, [], 0, Some(reply), clock, NO_FAULTS);
            && v.outcome.Returned? && v.exchange.Some? && Shows(v.outcome.reply, STALE)
            && ExactAgeAt(lib, e, clock.policy) > MAX_DURATION
  {
    var clock := Still(t).(policy := t + SECOND);
    MinuteLine(lib, e, url);
    ErrorWindow(reply.header);
    AncientAges(lib, e, t, clock);
    AncientAges(lib, e, t, Still(t + SECOND));
    AncientStale(lib, e, Plain(url), t, clock);
    RevalidationStale(lib, conn, 1, Plain(url), e, [], 0, reply, clock, NO_FAULTS);
  }

  lemma AncientStale(lib: Library, e: Entry, req: Request, t: Time, clock: Clock)
    requires Ancient(lib, e, t) && clock.resident == t && clock.stamped == t && clock.policy == t + SECOND
    requires Minute(lib, e, DirectivesOf(req.header), DirectivesOf(e.data.header))
    requires CC.StaleWhileRevalidate(DirectivesOf(e.data.header)).None?
    ensures var f := FreshnessFor(lib, e, req, clock);
            && f == Freshness(true, Age(MAX_DURATION, t), 60 * SECOND) && Adjusted(f.age, clock.policy) < 0
            && RouteOf(f, DirectivesOf(req.header), DirectivesOf(e.data.header), clock.swr).Revalidate?
  {
    AncientAges(lib, e, t, clock);
  }

  /** Served while revalidating, with a window near the end of the range. */
  lemma AncientInWindow(lib: Library, conn: Conn, req: Request, e: Entry, t: Time)
    requires Ancient(lib, e, t) && Minute(lib, e, DirectivesOf(req.header), DirectivesOf(e.data.header))
    requires CC.StaleWhileRevalidate(DirectivesOf(e.data.header)) == Some(9_223_372_036 * SECOND)
    ensures var clock := Still(t).(swr := t + SECOND);
            var v := Hit(lib, conn, 1, req, e, [], 0, None, clock, NO_FAULTS);
            && WithoutContact(v) && v.job.Some?
            && ExactAgeAt(lib, e, clock.swr) > 60 * SECOND + 9_223_372_036 * SECOND
  {
    var clock := Still(t).(swr := t + SECOND);
    AncientAges(lib, e, t, clock);
    AncientAges(lib, e, t, Still(t + SECOND));
    var f := FreshnessFor(lib, e, req, clock);
    assert f == Freshness(true, Age(MAX_DURATION, t), 60 * SECOND);
    WindowWraps(t);
    HitWithoutContact(lib, conn, 1, req, e, [], 0, None, clock, NO_FAULTS);
  }

  lemma WindowWraps(t: Time)
    ensures 0 <= Wrap64(Adjusted(Age(MAX_DURATION, t), t + SECOND) - 60 * SECOND) < 9_223_372_036 * SECOND
  {
    assert Adjusted(Age(MAX_DURATION, t), t + SECOND) == MIN_DURATION + SECOND - 1;
  }

  lemma ErrorWindow(h: Header)
    requires Get(h, "Cache-Control") == "stale-if-error=60"
    ensures CC.StaleIfError(DirectivesOf(h)) == Some(60 * SECOND)
  {
    WithSixty(h, "stale-if-error");
  }

  /** A request max-age=0 answered from the store on an error status, however old the entry. */
  lemma MaxAgeZeroServed(lib: Library, conn: Conn, url: URL, e: Entry, t: Time, body: string)
    requires Get(e.data.header, "Cache-Control") == ""
    ensures var reply := Reply(503, map["Cache-Control" := ["stale-if-error=60"]], body);
            var v := Hit(lib, conn, 1, Asking(url, "max-age=0"), e, [], 0, Some(reply), Still(t), NO_FAULTS);
            v.outcome.Returned? && Shows(v.outcome.reply, STALE) && Carries(v.outcome.reply, e.data)
  {
    var reply := Reply(503, map["Cache-Control" := ["stale-if-error=60"]], body);
    var req := Asking(url, "max-age=0");
    MaxAgeZero(req.header);
    ErrorWindow(reply.header);
    ZeroServed(lib, conn, req, e, reply, t);
  }

  lemma ZeroServed(lib: Library, conn: Conn, req: Request, e: Entry, reply: Reply, t: Time)
    requires req.verb == "GET" && StaleErrorAllowed(reply.status) && Get(e.data.header, "Cache-Control") == ""
    requires CC.MaxAge(DirectivesOf(req.header)) == Some(0) && !CC.OnlyIfCached(DirectivesOf(req.header))
    requires CC.StaleIfError(DirectivesOf(reply.header)) == Some(60 * SECOND)
    ensures var v := Hit(lib, conn, 1, req, e, [], 0, Some(reply), Still(t), NO_FAULTS);
            v.outcome.Returned? && Shows(v.outcome.reply, STALE) && Carries(v.outcome.reply, e.data)
  {
    BornNowRevalidates(lib, e, req, t);
    StaleIfErrorMaxAgeZero(lib, conn, 1, req, e, [], 0, reply, Still(t), NO_FAULTS);
  }

  lemma BornNowRevalidates(lib: Library, e: Entry, req: Request, t: Time)
    requires Get(e.data.header, "Cache-Control") == ""
    requires CC.MaxAge(DirectivesOf(req.header)) == Some(0) && !CC.OnlyIfCached(DirectivesOf(req.header))
    ensures RouteOf(FreshnessFor(lib, e, req, Still(t)), DirectivesOf(req.header), DirectivesOf(e.data.header),
                    t).Revalidate?
  {
    assert DirectivesOf(e.data.header) == map[];
    RouteBornNow(FreshnessFor(lib, e, req, Still(t)), DirectivesOf(req.header), map[], Still(t));
  }

  lemma MaxAgeZero(h: Header)
    requires Get(h, "Cache-Control") == "max-age=0"
    ensures DirectivesOf(h) == map["max-age" := "0"]
    ensures CC.MaxAge(DirectivesOf(h)) == Some(0) && !CC.OnlyIfCached(DirectivesOf(h))
  {
    Zero();
    assert CC.PrintItem(CC.Item("max-age", CC.Token("0"))) == "max-age=0";
    CC.ParseOne(CC.Item("max-age", CC.Token("0")));
    assert "max-age"[0] != "only-if-cached"[0];
  }

  lemma Zero()
    ensures CC.DeltaSeconds("0") == Some(0) && IsToken("0") && IsToken("max-age")
  {
    assert "0"[1..] == "" && ScanDigits("0", 0) == Number(0);
  }

  /** The life that max-age=0 leaves to Expires or to the heuristic: a reply just received is a
      hit. */
  lemma JustReceivedServed(lib: Library, conn: Conn, url: URL, e: Entry, t: Time)
    requires Get(e.data.header, "Age") == "" && Get(e.data.header, "Cache-Control") == "max-age=0"
    requires DateOf(lib, e.data.header) == t && e.requestedAt == t && e.receivedAt == t
    requires UsefulLife(lib, e, map[], DirectivesOf(e.data.header)) > 0
    ensures WithoutContact(Hit(lib, conn, 1, Plain(url), e, [], 0, None, Still(t), NO_FAULTS))
  {
    MaxAgeZeroOnly(e.data.header);
    EmptyUndirected();
    PlainDirectives(url);
    assert CurrentAge(lib, e, Still(t)).value == 0;
    assert !FreshnessFor(lib, e, Plain(url), Still(t)).isStale;
    HitWithoutContact(lib, conn, 1, Plain(url), e, [], 0, None, Still(t), NO_FAULTS);
  }

  lemma MaxAgeZeroOnly(h: Header)
    requires Get(h, "Cache-Control") == "max-age=0"
    ensures CC.MaxAge(DirectivesOf(h)) == Some(0) && !CC.NoCache(DirectivesOf(h)) && !CC.MustRevalidate(DirectivesOf(h))
  {
    MaxAgeZero(h);
    assert "max-age"[0] != "no-cache"[0] && |"max-age"| != |"must-revalidate"|;
  }

  /** A response max-age of 0, outweighed by a later Expires. */
  lemma ExpiresServed(lib: Library, conn: Conn, url: URL, e: Entry, t: Time)
    requires Get(e.data.header, "Age") == "" && Get(e.data.header, "Cache-Control") == "max-age=0"
    requires DateOf(lib, e.data.header) == t && e.requestedAt == t && e.receivedAt == t
    requires ParseDate(lib, Get(e.data.header, "Expires")) == Some(t + 60 * SECOND)
    ensures UsefulLife(lib, e, map[], DirectivesOf(e.data.header)) == 60 * SECOND
    ensures WithoutContact(Hit(lib, conn, 1, Plain(url), e, [], 0, None, Still(t), NO_FAULTS))
  {
    MaxAgeZeroOnly(e.data.header);
    EmptyUndirected();
    assert ResponseLife(lib, e, DirectivesOf(e.data.header)) == 60 * SECOND;
    JustReceivedServed(lib, conn, url, e, t);
  }

  /** And by the heuristic: 1000 seconds since Last-Modified give 100 seconds. */
  lemma HeuristicServed(lib: Library, conn: Conn, url: URL, e: Entry, t: Time)
    requires Get(e.data.header, "Age") == "" && Get(e.data.header, "Cache-Control") == "max-age=0"
    requires DateOf(lib, e.data.header) == t && e.requestedAt == t && e.receivedAt == t && e.data.status == 200
    requires Get(e.data.header, "Expires") == ""
    requires ParseDate(lib, Get(e.data.header, "Last-Modified")) == Some(t - 1000 * SECOND)
    ensures UsefulLife(lib, e, map[], DirectivesOf(e.data.header)) == 100 * SECOND
    ensures WithoutContact(Hit(lib, conn, 1, Plain(url), e, [], 0, None, Still(t), NO_FAULTS))
  {
    MaxAgeZeroOnly(e.data.header);
    EmptyUndirected();
    assert Heuristic(lib, e.data.header, t) == RoundToSecond(100 * SECOND) == 100 * SECOND;
    assert ResponseLife(lib, e, DirectivesOf(e.data.header)) == 100 * SECOND;
    JustReceivedServed(lib, conn, url, e, t);
  }

  /** A request max-age=0 answered without contact: an entry of any age with a window. */
  lemma MaxAgeZeroInWindow(lib: Library, conn: Conn, url: URL, e: Entry, t: Time)
    requires Get(e.data.header, "Cache-Control") == SWR_60
    ensures WithoutContact(Hit(lib, conn, 1, Asking(url, "max-age=0"), e, [], 0, None, Still(t), NO_FAULTS))
  {
    MaxAgeZero(Asking(url, "max-age=0").header);
    SwrWindow(e.data.header);
    MaxAgeZeroIff(lib, conn, 1, Asking(url, "max-age=0"), e, [], 0, None, Still(t), NO_FAULTS);
  }

  /** A 304 to a precondition the stored reply has no validator for: the client's. */
  lemma ForeignAnswered(lib: Library, conn: Conn, url: URL, e: Entry, t: Time)
    requires BornDead(lib, e, t) && Get(e.data.header, "Cache-Control") == "" && Get(e.data.header, "Etag") == ""
    ensures var req := Request("GET", url, map["If-None-Match" := ["x"]]);
            var v := Hit(lib, conn, 1, req, e, [], 0, Some(Reply(304, map[], "")), Still(t), NO_FAULTS);
            && v.exchange.Some? && Values(v.exchange.value.req.header, "If-None-Match") == ["x"]
            && v.outcome.Returned? && Shows(v.outcome.reply, REVALIDATED) && Carries(v.outcome.reply, e.data)
  {
    var req := Request("GET", url, map["If-None-Match" := ["x"]]);
    assert "Cache-Control"[0] != "If-None-Match"[0];
    ForeignFor(lib, conn, req, e, Reply(304, map[], ""), t);
  }

  lemma ForeignFor(lib: Library, conn: Conn, req: Request, e: Entry, reply: Reply, t: Time)
    requires BornDead(lib, e, t) && Get(e.data.header, "Cache-Control") == "" && Get(e.data.header, "Etag") == ""
    requires req.verb == "GET" && Get(req.header, "Cache-Control") == "" && Values(req.header, "If-None-Match") != []
    requires reply.status == 304
    ensures var v := Hit(lib, conn, 1, req, e, [], 0, Some(reply), Still(t), NO_FAULTS);
            && v.exchange.Some? && Values(v.exchange.value.req.header, "If-None-Match")
              == Values(req.header, "If-None-Match")
            && v.outcome.Returned? && Shows(v.outcome.reply, REVALIDATED) && Carries(v.outcome.reply, e.data)
  {
    DeadRevalidates(lib, e, req, t);
    ForeignPrecondition(lib, conn, 1, req, e, [], 0, reply, Still(t), NO_FAULTS);
  }

  lemma DeadRevalidates(lib: Library, e: Entry, req: Request, t: Time)
    requires BornDead(lib, e, t) && Get(e.data.header, "Cache-Control") == "" && Get(req.header, "Cache-Control") == ""
    ensures RouteOf(FreshnessFor(lib, e, req, Still(t)), DirectivesOf(req.header), DirectivesOf(e.data.header),
                    t).Revalidate?
  {
    assert DirectivesOf(req.header) == map[] && DirectivesOf(e.data.header) == map[];
    EmptyUndirected();
    NoLife(lib, e, t, t, map[], map[]);
    EmptyRoute(Freshness(true, Age(0, t), 0), t);
  }

  lemma EmptyRoute(f: Freshness, now: Time)
    requires f.isStale
    ensures RouteOf(f, map[], map[], now).Revalidate?
  {
  }

  // ----- only-if-cached -----

  lemma OnlyIfCachedLine(h: Header)
    requires Get(h, "Cache-Control") == "only-if-cached"
    ensures CC.OnlyIfCached(DirectivesOf(h)) && Undirected(DirectivesOf(h)) && !CC.NoCache(DirectivesOf(h))
  {
    WithName(h, "only-if-cached");
    assert "only-if-cached"[0] == 'o' && "max-age"[0] == 'm' && "min-fresh"[0] == 'm' && "max-stale"[0] == 'm' &&
           "no-cache"[0] == 'n';
  }

  /** An only-if-cached request that reaches the origin. */
  lemma OnlyIfCachedAsks(lib: Library, conn: Conn, url: URL, e: Entry, t: Time, reply: Reply)
    requires BornDead(lib, e, t) && Get(e.data.header, "Cache-Control") == "must-revalidate"
    ensures Hit(lib, conn, 1, Asking(url, "only-if-cached"), e, [], 0, Some(reply), Still(t), NO_FAULTS).exchange.Some?
  {
    OnlyIfCachedLine(Asking(url, "only-if-cached").header);
    MustRevalidateLine(e.data.header);
    DeadIsForced(lib, e, t, DirectivesOf(Asking(url, "only-if-cached").header), DirectivesOf(e.data.header));
    OnlyIfCachedHit(lib, conn, 1, Asking(url, "only-if-cached"), e, [], 0, Some(reply), Still(t), NO_FAULTS);
  }

  lemma DeadIsForced(lib: Library, e: Entry, t: Time, ccReq: CC.Directives, ccResp: CC.Directives)
    requires BornDead(lib, e, t) && Undirected(ccReq) && CC.MaxAge(ccResp).None? && CC.MustRevalidate(ccResp)
    ensures Forced(Calculate(lib, e, ccReq, ccResp, Still(t)), ccReq, ccResp)
  {
    NoLife(lib, e, t, t, ccReq, ccResp);
  }

  /** One that is served an entry of any age as a hit. */
  lemma OnlyIfCachedAnyAge(lib: Library, conn: Conn, url: URL, e: Entry, t: Time)
    requires Get(e.data.header, "Cache-Control") == ""
    ensures WithoutContact(Hit(lib, conn, 1, Asking(url, "only-if-cached"), e, [], 0, None, Still(t), NO_FAULTS))
  {
    OnlyIfCachedLine(Asking(url, "only-if-cached").header);
    assert DirectivesOf(e.data.header) == map[];
    HitWithoutContact(lib, conn, 1, Asking(url, "only-if-cached"), e, [], 0, None, Still(t), NO_FAULTS);
    RouteOnlyIfCached(FreshnessFor(lib, e, Asking(url, "only-if-cached"), Still(t)),
                      DirectivesOf(Asking(url, "only-if-cached").header), map[], t);
  }

  // ----- A withheld field shown -----

  const LISTED: CC.Item := CC.Item("no-cache", CC.Quoted("set-cookie"))
  const WINDOW: CC.Item := CC.Item("stale-while-revalidate", CC.Token("60"))

  lemma ListedWindow(h: Header)
    requires Get(h, "Cache-Control") == CC.Print([LISTED, WINDOW])
    ensures WindowOnly(DirectivesOf(h))
  {
    Sixty();
    ListedValid();
    TwoDirectives(h, LISTED, WINDOW);
    ListedNotEmpty();
    ListedWindowOnly(DirectivesOf(h), QuotedString.Print("set-cookie"), "set-cookie", "60");
  }

  lemma ListedValid()
    ensures CC.ValidItem(LISTED) && CC.ValidItem(WINDOW)
  {
    Sixty();
    SwrToken();
    NoCacheToken();
  }

  lemma NoCacheToken()
    ensures IsToken("no-cache")
  {
  }

  lemma SetCookieToken()
    ensures IsToken("set-cookie")
  {
  }

  lemma TwoDirectives(h: Header, a: CC.Item, b: CC.Item)
    requires CC.ValidItem(a) && CC.ValidItem(b) && Get(h, "Cache-Control") == CC.Print([a, b])
    ensures DirectivesOf(h) == map[a.name := CC.PrintArgument(a.argument)][b.name := CC.PrintArgument(b.argument)]
  {
    CC.ParseTwo(a, b);
    assert CC.Parse("") == map[] by {
      assert Csv.Split("") == [];
    }
  }

  lemma ListedNotEmpty()
    ensures QuotedString.Parse(QuotedString.Print("set-cookie")) == "set-cookie"
  {
    QuotedString.ParsePrint("set-cookie");
  }

  lemma ListedWindowOnly(cc: CC.Directives, quoted: string, fields: string, sixty: string)
    requires cc == map["no-cache" := quoted]["stale-while-revalidate" := sixty]
    requires CC.DeltaSeconds(sixty) == Some(60 * SECOND) && QuotedString.Parse(quoted) == fields != ""
    ensures WindowOnly(cc)
  {
    assert "no-cache"[0] == 'n' && "max-age"[0] == 'm' && "stale-while-revalidate"[0] == 's' && "immutable"[0] == 'i';
    assert "must-revalidate"[0] == 'm';
    QualifiedWindow(cc, fields);
  }

  lemma QualifiedWindow(cc: CC.Directives, fields: string)
    requires "no-cache" in cc && QuotedString.Parse(cc["no-cache"]) == fields != ""
    requires "max-age" !in cc && "must-revalidate" !in cc && "immutable" !in cc
    requires "stale-while-revalidate" in cc && CC.DeltaSeconds(cc["stale-while-revalidate"]) == Some(60 * SECOND)
    ensures WindowOnly(cc)
  {
  }

  lemma SetCookieWithheld(h: Header)
    requires Get(h, "Cache-Control") == CC.Print([LISTED, WINDOW])
    ensures "Set-Cookie" in Withheld(DirectivesOf(h))
  {
    ListedValid();
    SetCookieToken();
    assert "stale-while-revalidate"[0] != "no-cache"[0];
    OneWithheld(h, LISTED, WINDOW, "set-cookie");
    SetCookieName();
  }

  lemma SetCookieName()
    ensures CanonicalKey("set-cookie") == "Set-Cookie"
  {
    var s := "set-cookie";
    assert forall i :: 0 <= i < |s| ==> IsTokenChar(s[i]);
  }

  lemma OneWithheld(h: Header, a: CC.Item, b: CC.Item, field: string)
    requires CC.ValidItem(a) && CC.ValidItem(b) && Get(h, "Cache-Control") == CC.Print([a, b])
    requires a == CC.Item("no-cache", CC.Quoted(field)) && b.name != "no-cache" && IsToken(field)
    ensures CanonicalKey(field) in Withheld(DirectivesOf(h))
  {
    assert Csv.Join([field], ", ") == field;
    WithheldExactly(h, [a, b], 0, [field]);
    assert field in [field];
  }

  /** The field a no-cache lists is withheld from a hit, but a reply given while revalidating
      shows it, and the stored Age line besides. */
  lemma WithheldShown(lib: Library, conn: Conn, url: URL, e: Entry, t: Time)
    requires BornDead(lib, e, t) && Get(e.data.header, "Cache-Control") == CC.Print([LISTED, WINDOW])
    ensures var v := Hit(lib, conn, 1, Plain(url), e, [], 0, None, Still(t), NO_FAULTS);
            && "Set-Cookie" in Withheld(DirectivesOf(e.data.header))
            && WithoutContact(v) && Shows(v.outcome.reply, STALE)
            && Values(v.outcome.reply.header, "Set-Cookie") == Values(e.data.header, "Set-Cookie")
            && Values(v.outcome.reply.header, "Age") == Values(e.data.header, "Age")
  {
    ListedWindow(e.data.header);
    SetCookieWithheld(e.data.header);
    WindowShowsBoth(lib, conn, url, e, t);
  }

  lemma WindowShowsBoth(lib: Library, conn: Conn, url: URL, e: Entry, t: Time)
    requires BornDead(lib, e, t) && WindowOnly(DirectivesOf(e.data.header))
    ensures var v := Hit(lib, conn, 1, Plain(url), e, [], 0, None, Still(t), NO_FAULTS);
            && WithoutContact(v) && Shows(v.outcome.reply, STALE)
            && Values(v.outcome.reply.header, "Set-Cookie") == Values(e.data.header, "Set-Cookie")
            && Values(v.outcome.reply.header, "Age") == Values(e.data.header, "Age")
  {
    PlainDirectives(url);
    assert "Set-Cookie"[0] == 'S' && "Age"[0] == 'A' && STATUS[0] == 'X' && FROM_CACHE[0] == 'X';
    WindowShows(lib, conn, Plain(url), e, t, "Set-Cookie");
    WindowShows(lib, conn, Plain(url), e, t, "Age");
  }

  lemma WindowShows(lib: Library, conn: Conn, req: Request, e: Entry, t: Time, field: string)
    requires BornDead(lib, e, t) && WindowOnly(DirectivesOf(e.data.header)) && Undemanding(req) && !Stamps(field)
    ensures var v := Hit(lib, conn, 1, req, e, [], 0, None, Still(t), NO_FAULTS);
            WithoutContact(v) && Shows(v.outcome.reply, STALE) && Values(v.outcome.reply.header, field)
              == Values(e.data.header, field)
  {
    WindowServes(lib, conn, 1, req, e, [], 0, t, t);
    StaleAndJobShows(req, e, Freshness(true, Age(0, t), 0), map[], field);
  }

  // ----- A run that brings a reply back -----

  /** The date line stands for `t`, and printed times parse. */
  predicate Dated(lib: Library, date: string, t: Time) {
    date != "" && lib.parseTime(date) == Some(t) && t != ZERO_TIME &&
    lib.formatTime(t) != "" && lib.parseTime(lib.formatTime(t)) == Some(t)
  }

  function Old(date: string): Reply {
    Reply(200, map["Date" := [date], "Cache-Control" := [SWR_60]], "old")
  }

  /** GET, stale GET, POST, and then the revalidation the second one started. */
  function Steps(url: URL, date: string, t: Time): seq<Step> {
    [Foreground(Plain(url), Some(Old(date)), Still(t), NO_FAULTS),
     Foreground(Plain(url), None, Still(t), NO_FAULTS),
     Foreground(Request("POST", url, map[]), Some(Reply(200, map[], "")), Still(t), NO_FAULTS),
     Background(0, Some(Resurrection.REVIVING), Still(t), NO_FAULTS)]
  }

  function OldEntry(lib: Library, url: URL, date: string, t: Time): Entry {
    Entry(Vary.VaryKey(lib, url.key, map[]), Old(date), t, t, [0])
  }

  lemma NotHop()
    ensures "Date" !in FIXED_HOP && "Cache-Control" !in FIXED_HOP
  {
    forall k | k in FIXED_HOP ensures k[1] != 'a' {
    }
    assert "Date"[1] == 'a' && "Cache-Control"[1] == 'a';
  }

  lemma VaryNotHop()
    ensures "Vary" !in FIXED_HOP
  {
    forall k | k in FIXED_HOP ensures k[0] != 'V' {
    }
    assert "Vary"[0] == 'V';
  }

  lemma OldFields(date: string)
    ensures var h := Old(date).header;
            && VaryOf(h) == "" && Get(h, "Date") == date && Get(h, "Cache-Control") == SWR_60
            && Get(h, "Age") == "" && Get(h, "Expires") == "" && Get(h, "Last-Modified") == "" && Get(h, "Etag") == ""
  {
    assert "Vary"[0] == 'V' && "Age"[0] == 'A' && "Expires"[0] == 'E' && "Etag"[0] == 'E' && "Last-Modified"[0] == 'L';
  }

  lemma OldClean(date: string)
    ensures var h := Old(date).header;
            EndToEnd(h) == h && h.Keys !! FIXED_HOP
  {
    var h := Old(date).header;
    NotHop();
    assert h.Keys == {"Date", "Cache-Control"};
    EndToEndFixpoint(h);
  }

  lemma OldStorable(h: Header)
    requires Get(h, "Cache-Control") == SWR_60
    ensures !CC.NoStore(DirectivesOf(h))
  {
    WithSixty(h, "stale-while-revalidate");
    assert "no-store"[0] != "stale-while-revalidate"[0];
  }

  lemma OldHeader(date: string)
    ensures var h := Old(date).header;
            && EndToEnd(h) == h && h.Keys !! FIXED_HOP && VaryOf(h) == "" && WindowOnly(DirectivesOf(h))
            && !CC.NoStore(DirectivesOf(h)) && Get(h, "Date") == date
            && Get(h, "Age") == "" && Get(h, "Expires") == "" && Get(h, "Last-Modified") == "" && Get(h, "Etag") == ""
  {
    OldFields(date);
    OldClean(date);
    OldStorable(Old(date).header);
    SwrWindow(Old(date).header);
  }

  lemma PlainDirectives(url: URL)
    ensures Undemanding(Plain(url))
  {
  }

  /** A reply with that Date which is stored as it is. */
  predicate Simple(lib: Library, reply: Reply, t: Time) {
    var h := reply.header;
    reply.status == 200 && ParseDate(lib, Get(h, "Date")) == Some(t) && t != ZERO_TIME &&
    EndToEnd(h) == h && !CC.NoStore(DirectivesOf(h))
  }

  predicate Undemanding(req: Request) {
    IsUnderstood(req) && DirectivesOf(req.header) == map[]
  }

  function ResolvedBy(lib: Library, req: Request, reply: Reply): map<string, string> {
    Vary.Resolve(lib, VaryOf(reply.header), req.header)
  }

  function EntryOf(lib: Library, req: Request, reply: Reply, now: Time, number: nat): Entry {
    Entry(Vary.VaryKey(lib, req.url.key, ResolvedBy(lib, req, reply)), reply, now, now, [number])
  }

  function RefOf(lib: Library, req: Request, reply: Reply, t: Time): Ref {
    Ref(Vary.VaryKey(lib, req.url.key, ResolvedBy(lib, req, reply)), VaryOf(reply.header), ResolvedBy(lib, req, reply),
        t)
  }

  lemma MissStores(lib: Library, number: nat, req: Request, refs: seq<Ref>, reply: Reply, t: Time, now: Time)
    requires Simple(lib, reply, t) && Undemanding(req)
    ensures var v := Miss(lib, number, req, refs, -1, Some(reply), Still(now));
            && v.effect == Store(req.url.key, EntryOf(lib, req, reply, now, number), refs + [RefOf(lib, req, reply, t)])
            && v.exchange == Some(Exchange(req, reply, now, now)) && v.job.None?
  {
    assert TimedReply(lib, reply, now) == reply;
    assert CanStore(reply, map[], DirectivesOf(reply.header));
  }

  lemma ForegroundMiss(lib: Library, w: World, req: Request, upstream: Option<Reply>, clock: Clock)
    requires IsUnderstood(req) && !Find(lib, w.conn, req, NO_FAULTS).Found?
    ensures var l := Find(lib, w.conn, req, NO_FAULTS);
            VerdictOf(lib, w, Foreground(req, upstream, clock, NO_FAULTS))
            == Miss(lib, |w.trace|, req, RefsOf(l), IndexOf(l), upstream, clock)
  {
  }

  lemma ForegroundHit(lib: Library, w: World, req: Request, upstream: Option<Reply>, clock: Clock, e: Entry,
                      refs: seq<Ref>, i: nat)
    requires IsUnderstood(req) && Find(lib, w.conn, req, NO_FAULTS) == Found(e, refs, i)
    ensures VerdictOf(lib, w, Foreground(req, upstream, clock, NO_FAULTS))
            == Hit(lib, w.conn, |w.trace|, req, e, refs, i, upstream, clock, NO_FAULTS)
  {
  }

  /** A plain GET that finds nothing stores the reply and appends its ref. */
  lemma MissGet(lib: Library, w: World, req: Request, reply: Reply, t: Time, now: Time)
    requires Simple(lib, reply, t) && Undemanding(req)
    requires var l := Find(lib, w.conn, req, NO_FAULTS); l.Nothing? || l.NoMatch?
    ensures var e, r := EntryOf(lib, req, reply, now, |w.trace|), RefOf(lib, req, reply, t);
            var refs := RefsOf(Find(lib, w.conn, req, NO_FAULTS));
            Next(lib, w, Foreground(req, Some(reply), Still(now), NO_FAULTS))
            == World(w.conn[e.id := Stored(e)][req.url.key := Refs(refs + [r])], w.pending, w.trace
                     + [Exchange(req, reply, now, now)])
  {
    var l := Find(lib, w.conn, req, NO_FAULTS);
    ForegroundMiss(lib, w, req, Some(reply), Still(now));
    MissStores(lib, |w.trace|, req, RefsOf(l), reply, t, now);
  }

  lemma OldBornDead(lib: Library, url: URL, date: string, t: Time)
    requires Dated(lib, date, t)
    ensures BornDead(lib, OldEntry(lib, url, date, t), t)
  {
    OldHeader(date);
  }

  function OldRef(lib: Library, url: URL, t: Time): Ref {
    Ref(Vary.VaryKey(lib, url.key, map[]), "", map[], t)
  }

  lemma NothingResolved(lib: Library, h: Header)
    ensures Vary.Resolve(lib, "", h) == map[]
  {
    assert Csv.Split("") == [];
  }

  lemma FirstGet(lib: Library, req: Request, reply: Reply, t: Time)
    requires Simple(lib, reply, t) && Undemanding(req) && VaryOf(reply.header) == ""
    ensures var id := Vary.VaryKey(lib, req.url.key, map[]);
            Next(lib, INIT, Foreground(req, Some(reply), Still(t), NO_FAULTS))
            == World(map[id := Stored(Entry(id, reply, t, t, [0])), req.url.key := Refs([Ref(id, "", map[], t)])], [],
                     [Exchange(req, reply, t, t)])
  {
    NothingResolved(lib, req.header);
    MissGet(lib, INIT, req, reply, t, t);
    assert ResolvedBy(lib, req, reply) == map[];
    var e, r := EntryOf(lib, req, reply, t, 0), RefOf(lib, req, reply, t);
    assert [] + [r] == [r];
    var empty: Conn := map[];
    assert empty[e.id := Stored(e)][req.url.key := Refs([r])] == map[e.id := Stored(e), req.url.key := Refs([r])];
  }

  /** An entry in its window, asked for plainly: the stale reply, and a job that holds it. */
  lemma WindowServes(lib: Library, conn: Conn, number: nat, req: Request, e: Entry, refs: seq<Ref>, i: int, t: Time,
                     now: Time)
    requires BornDead(lib, e, t) && WindowOnly(DirectivesOf(e.data.header)) && Undemanding(req)
    requires t <= now < t + 60 * SECOND
    ensures Hit(lib, conn, number, req, e, refs, i, None, Still(now), NO_FAULTS)
            == StaleAndJob(req, e, Freshness(true, Age(now - t, now), 0), map[])
  {
    EmptyUndirected();
    WindowRoute(lib, e, t, now, map[], DirectivesOf(e.data.header));
  }

  function StaleJob(req: Request, e: Entry, t: Time, now: Time): Job
    requires t <= now < t + 60 * SECOND
  {
    Job(req, e.(data := Stamped(e.data, STALE)), Freshness(true, Age(now - t, now), 0), map[])
  }

  /** A plain GET of an entry in its window leaves a job and nothing else. */
  lemma StaleGet(lib: Library, w: World, req: Request, e: Entry, refs: seq<Ref>, i: nat, t: Time, now: Time)
    requires Find(lib, w.conn, req, NO_FAULTS) == Found(e, refs, i) && Undemanding(req)
    requires BornDead(lib, e, t) && WindowOnly(DirectivesOf(e.data.header)) && Conditional(req, e.data.header) == req
    requires t <= now < t + 60 * SECOND
    ensures Next(lib, w, Foreground(req, None, Still(now), NO_FAULTS))
            == w.(pending := w.pending + [StaleJob(req, e, t, now)])
  {
    ForegroundHit(lib, w, req, None, Still(now), e, refs, i);
    WindowServes(lib, w.conn, |w.trace|, req, e, refs, i, t, now);
  }

  function AfterFirst(lib: Library, url: URL, date: string, t: Time): World {
    World(map[OldRef(lib, url, t).id := Stored(OldEntry(lib, url, date, t)), url.key := Refs([OldRef(lib, url, t)])],
          [],
          [Exchange(Plain(url), Old(date), t, t)])
  }

  lemma FirstStep(lib: Library, url: URL, date: string, t: Time)
    requires Dated(lib, date, t)
    ensures Next(lib, INIT, Steps(url, date, t)[0]) == AfterFirst(lib, url, date, t)
  {
    PlainDirectives(url);
    OldHeader(date);
    FirstGet(lib, Plain(url), Old(date), t);
  }

  function AfterSecond(lib: Library, url: URL, date: string, t: Time): World {
    AfterFirst(lib, url, date, t).(pending := [StaleJob(Plain(url), OldEntry(lib, url, date, t), t, t)])
  }

  lemma OldFound(lib: Library, url: URL, date: string, t: Time)
    requires Vary.PermutesRefs(lib) && '#' !in url.key
    ensures Find(lib, AfterFirst(lib, url, date, t).conn, Plain(url), NO_FAULTS)
            == Found(OldEntry(lib, url, date, t), [OldRef(lib, url, t)], 0)
  {
    Vary.VaryKeyHasHash(lib, url.key, map[]);
    Resurrection.FoundSingleton(lib, AfterFirst(lib, url, date, t).conn, OldRef(lib, url, t),
                                OldEntry(lib, url, date, t), Plain(url));
  }

  lemma SecondStep(lib: Library, url: URL, date: string, t: Time)
    requires Dated(lib, date, t) && Vary.PermutesRefs(lib) && '#' !in url.key
    ensures Next(lib, AfterFirst(lib, url, date, t), Steps(url, date, t)[1]) == AfterSecond(lib, url, date, t)
  {
    OldFound(lib, url, date, t);
    OldBornDead(lib, url, date, t);
    OldHeader(date);
    PlainDirectives(url);
    assert Conditional(Plain(url), Old(date).header) == Plain(url);
    StaleGet(lib, AfterFirst(lib, url, date, t), Plain(url), OldEntry(lib, url, date, t), [OldRef(lib, url, t)], 0, t,
             t);
  }

  /** The unsafe request addresses the key and leaves the job. */
  lemma ThirdStep(lib: Library, url: URL, date: string, t: Time)
    ensures var w := AfterSecond(lib, url, date, t);
            var step := Steps(url, date, t)[2];
            && Resurrection.Invalidates(lib, step, url.key)
            && Next(lib, w, step).pending == w.pending && |Next(lib, w, step).trace| == 2
            && url.key !in Next(lib, w, step).conn
  {
    var w, step := AfterSecond(lib, url, date, t), Steps(url, date, t)[2];
    assert Resurrection.Invalidates(lib, step, url.key);
    Resurrection.InvalidationCuts(lib, w, step, url.key);
    assert !IsUnderstood(step.req);
  }

  /** What the 304 leaves of the header that matters to freshness. */
  lemma RevivedFields(lib: Library, h: Header, date: string, t: Time)
    requires Dated(lib, date, t) && h == Stamp(Old(date).header, STALE)
    ensures var merged := Merge(h, TimedReply(lib, Resurrection.REVIVING, t).header);
            && Get(merged, "Age") == "" && Get(merged, "Expires") == "" && Get(merged, "Last-Modified") == ""
            && Get(merged, "Cache-Control") == SWR_60 && DateOf(lib, merged) == t
  {
    var src := TimedReply(lib, Resurrection.REVIVING, t).header;
    RevivingHeader(lib, t);
    RevivingUpdates(src, lib.formatTime(t));
    MergedFields(h, src, lib.formatTime(t));
    OldFields(date);
    StampLeaves(Old(date).header);
    OtherFields();
  }

  lemma RevivingHeader(lib: Library, t: Time)
    ensures TimedReply(lib, Resurrection.REVIVING, t).header == map["Vary" := [""], "Date" := [lib.formatTime(t)]]
  {
    assert "Vary"[0] == 'V' && "Date"[0] == 'D';
  }

  lemma OtherFields()
    ensures "Age" !in {"Vary", "Date"} && "Expires" !in {"Vary", "Date"} && "Last-Modified" !in {"Vary", "Date"}
    ensures "Cache-Control" !in {"Vary", "Date"}
  {
    assert "Vary"[0] == 'V' && "Date"[0] == 'D' && "Age"[0] == 'A' && "Expires"[0] == 'E' &&
           "Last-Modified"[0] == 'L' && "Cache-Control"[0] == 'C';
  }

  lemma MergedFields(h: Header, src: Header, line: string)
    requires src == map["Vary" := [""], "Date" := [line]] && Update(src) == src
    ensures Get(Merge(h, src), "Date") == line
    ensures forall f :: f !in {"Vary", "Date"} ==> Get(Merge(h, src), f) == Get(h, f)
  {
  }

  lemma RevivingUpdates(src: Header, line: string)
    requires src == map["Vary" := [""], "Date" := [line]]
    ensures Update(src) == src
  {
    NotHop();
    VaryNotHop();
    assert src.Keys == {"Vary", "Date"};
    assert |"Content-Length"| == 14 && |"Connection"| == 10;
    assert "Connection" !in src && Csv.Split("") == [];
  }

  lemma StampLeaves(h: Header)
    ensures var g := Stamp(h, STALE);
            forall f :: f != STATUS && f != FROM_CACHE ==> Get(g, f) == Get(h, f)
    ensures "Age"[0] != 'X' && "Expires"[0] != 'X' && "Last-Modified"[0] != 'X' && "Cache-Control"[0] != 'X'
    ensures STATUS[0] == 'X' && FROM_CACHE[0] == 'X'
  {
  }

  function Revival(lib: Library, conn: Conn, j: Job, t: Time): Effect {
    BackgroundRevalidate(lib, conn, 2, j, Some(Resurrection.REVIVING), Still(t), NO_FAULTS).effect
  }

  lemma RevivedData(lib: Library, conn: Conn, j: Job, t: Time)
    requires j.req.verb == "GET" && j.stored.data.header.Keys !! FIXED_HOP
    ensures var eff := Revival(lib, conn, j, t);
            var merged := Merge(j.stored.data.header, TimedReply(lib, Resurrection.REVIVING, t).header);
            eff.Store? && eff.entry.data == j.stored.data.(header := merged) &&
            eff.entry.requestedAt == t && eff.entry.receivedAt == t
  {
    Resurrection.RevivedHeader(lib, j.stored.data.header, t);
  }

  /** A header that leaves its entry in its window and without a lifetime. */
  predicate Reborn(lib: Library, h: Header, t: Time) {
    Get(h, "Age") == "" && Get(h, "Expires") == "" && Get(h, "Last-Modified") == "" && DateOf(lib, h) == t &&
    WindowOnly(DirectivesOf(h))
  }

  lemma RevivedAny(lib: Library, conn: Conn, j: Job, t: Time)
    requires j.req.verb == "GET" && j.stored.data.header.Keys !! FIXED_HOP
    requires Reborn(lib, Merge(j.stored.data.header, TimedReply(lib, Resurrection.REVIVING, t).header), t)
    ensures var eff := Revival(lib, conn, j, t);
            eff.Store? && BornDead(lib, eff.entry, t) && WindowOnly(DirectivesOf(eff.entry.data.header)) &&
            eff.entry.data.body == j.stored.data.body && eff.entry.lineage == j.stored.lineage + [2]
  {
    RevivedData(lib, conn, j, t);
    Resurrection.RevivedEffect(lib, conn, 2, j, Still(t));
  }

  lemma MergedReborn(lib: Library, h: Header, date: string, t: Time)
    requires Dated(lib, date, t) && h == Stamp(Old(date).header, STALE)
    ensures Reborn(lib, Merge(h, TimedReply(lib, Resurrection.REVIVING, t).header), t)
  {
    RevivedFields(lib, h, date, t);
    SwrWindow(Merge(h, TimedReply(lib, Resurrection.REVIVING, t).header));
  }

  lemma StaleClean(date: string)
    ensures Stamp(Old(date).header, STALE).Keys !! FIXED_HOP
  {
    OldClean(date);
    Provenance.StampKeepsClean(Old(date).header, STALE);
  }

  /** The job's 304 writes the old body back, and it is in its window again. */
  lemma RevivedOld(lib: Library, conn: Conn, url: URL, date: string, t: Time)
    requires Dated(lib, date, t)
    ensures var eff := Revival(lib, conn, AfterSecond(lib, url, date, t).pending[0], t);
            eff.Store? && BornDead(lib, eff.entry, t) && WindowOnly(DirectivesOf(eff.entry.data.header)) &&
            eff.entry.data.body == "old" && eff.entry.lineage == [0, 2]
  {
    var j := AfterSecond(lib, url, date, t).pending[0];
    StaleClean(date);
    MergedReborn(lib, j.stored.data.header, date, t);
    RevivedAny(lib, conn, j, t);
  }

  /** After it the plain GET finds that entry. */
  lemma FourthStep(lib: Library, w: World, url: URL, date: string, t: Time)
    requires Dated(lib, date, t) && Vary.PermutesRefs(lib) && '#' !in url.key
    requires w.pending == AfterSecond(lib, url, date, t).pending && |w.trace| == 2
    ensures var eff := Revival(lib, w.conn, w.pending[0], t);
            eff.Store? &&
            Find(lib, Next(lib, w, Steps(url, date, t)[3]).conn, Plain(url), NO_FAULTS) == Found(eff.entry, eff.refs, 0)
  {
    var j := w.pending[0];
    StaleClean(date);
    Resurrection.RevivedEffect(lib, w.conn, 2, j, Still(t));
    var eff := Revival(lib, w.conn, j, t);
    Vary.VaryKeyHasHash(lib, eff.key, map[]);
    Resurrection.StoredAlone(lib, w.conn, eff, Plain(url));
    assert VerdictOf(lib, w, Steps(url, date, t)[3]).effect == eff;
  }

  lemma RunFour(lib: Library, s: seq<Step>)
    requires |s| == 4
    ensures Run(lib, INIT, s[..2]) == Next(lib, Next(lib, INIT, s[0]), s[1])
    ensures Run(lib, INIT, s) == Next(lib, Next(lib, Run(lib, INIT, s[..2]), s[2]), s[3])
  {
    assert s[..3][..2] == s[..2] && s[..2][..1] == s[..1] && s[..1][..0] == [];
    assert Run(lib, INIT, []) == INIT;
    assert Run(lib, INIT, s[..1]) == Next(lib, INIT, s[0]);
    assert Run(lib, INIT, s[..3]) == Next(lib, Run(lib, INIT, s[..2]), s[2]);
  }

  lemma LastGet(lib: Library, w: World, eff: Effect, url: URL, t: Time)
    requires eff.Store? && Find(lib, w.conn, Plain(url), NO_FAULTS) == Found(eff.entry, eff.refs, 0)
    requires BornDead(lib, eff.entry, t) && WindowOnly(DirectivesOf(eff.entry.data.header))
    ensures var v := RoundTrip(lib, w.conn, |w.trace|, Plain(url), None, Still(t), NO_FAULTS);
            WithoutContact(v) && v.outcome.reply.body == eff.entry.data.body
  {
    PlainDirectives(url);
    WindowServes(lib, w.conn, |w.trace|, Plain(url), eff.entry, eff.refs, 0, t, t);
  }

  lemma RunEnds(lib: Library, url: URL, date: string, t: Time)
    requires Dated(lib, date, t) && Vary.PermutesRefs(lib) && '#' !in url.key
    ensures var steps := Steps(url, date, t);
            Run(lib, INIT, steps) == Next(lib, Next(lib, AfterSecond(lib, url, date, t), steps[2]), steps[3])
  {
    RunFour(lib, Steps(url, date, t));
    FirstStep(lib, url, date, t);
    SecondStep(lib, url, date, t);
  }

  lemma ServedAgain(lib: Library, w: World, url: URL, date: string, t: Time)
    requires Dated(lib, date, t) && Vary.PermutesRefs(lib) && '#' !in url.key
    requires w.pending == AfterSecond(lib, url, date, t).pending && |w.trace| == 2
    ensures var w' := Next(lib, w, Steps(url, date, t)[3]);
            var l := Find(lib, w'.conn, Plain(url), NO_FAULTS);
            var v := RoundTrip(lib, w'.conn, |w'.trace|, Plain(url), None, Still(t), NO_FAULTS);
            l.Found? && l.entry.lineage == [0, 2] && WithoutContact(v) && v.outcome.reply.body == "old"
  {
    FourthStep(lib, w, url, date, t);
    RevivedOld(lib, w.conn, url, date, t);
    LastGet(lib, Next(lib, w, Steps(url, date, t)[3]), Revival(lib, w.conn, w.pending[0], t), url, t);
  }

  /** Resurrection, from the empty cache: the POST deletes the reply, the revalidation that was
      pending stores it again, and the next GET is served its body without contact, from a reply
      obtained before the POST. */
  lemma Resurrected(lib: Library, url: URL, date: string, t: Time)
    requires Dated(lib, date, t) && Vary.PermutesRefs(lib) && '#' !in url.key
    ensures var steps := Steps(url, date, t);
            var w := Run(lib, INIT, steps);
            var l := Find(lib, w.conn, Plain(url), NO_FAULTS);
            var v := RoundTrip(lib, w.conn, |w.trace|, Plain(url), None, Still(t), NO_FAULTS);
            && Resurrection.Invalidates(lib, steps[2], url.key)
            && l.Found? && l.entry.lineage == [0, 2]
            && WithoutContact(v) && v.outcome.reply.body == "old"
  {
    RunEnds(lib, url, date, t);
    ThirdStep(lib, url, date, t);
    ServedAgain(lib, Next(lib, AfterSecond(lib, url, date, t), Steps(url, date, t)[2]), url, date, t);
  }
}
