/**
  Runs with two stored variants of one URL, for three properties the code does not have: of two
  that match, the earlier one is selected; the background revalidation of one makes the other
  unreachable; and a variant whose fields hash alike overwrites the other.
 */
module Variants {
  import opened Base
  import opened Http
  import opened Protocol
  import opened Freshness
  import opened Service
  import opened Cases
  import Agreement
  import Csv
  import HeaderValues
  import Ordering
  import Vary
  import VaryHash
  import CC = CacheControl

  // ----- Any two variants -----

  /** Three plain GETs of one URL and the replies to the first two: the first reply does not
      match the second request, both match the third, and the first is the earlier one. */
  datatype Scene = Scene(
    req1: Request, req2: Request, req3: Request, reply1: Reply, reply2: Reply, t1: Time, t2: Time)
  {
    function Url(): URL { req1.url }

    function Ref1(lib: Library): Ref { RefOf(lib, req1, reply1, t1) }

    function Ref2(lib: Library): Ref { RefOf(lib, req2, reply2, t2) }

    function Entry1(lib: Library): Entry { EntryOf(lib, req1, reply1, t1, 0) }

    function Entry2(lib: Library): Entry { EntryOf(lib, req2, reply2, t2, 1) }
  }

  predicate Plays(lib: Library, s: Scene) {
    && '#' !in s.Url().key && s.req2.url == s.Url() && s.req3.url == s.Url()
    && Undemanding(s.req1) && Undemanding(s.req2) && Undemanding(s.req3)
    && Simple(lib, s.reply1, s.t1) && Simple(lib, s.reply2, s.t2) && s.t1 < s.t2 < s.t1 + 60 * SECOND
    && Vary.Class(s.Ref1(lib)) == Vary.Class(s.Ref2(lib)) && s.Ref1(lib).id != s.Ref2(lib).id
    && !Vary.Matches(lib, s.Ref1(lib), s.req2.header) && Vary.Matches(lib, s.Ref2(lib), s.req2.header)
    && Vary.Matches(lib, s.Ref1(lib), s.req3.header) && Vary.Matches(lib, s.Ref2(lib), s.req3.header)
    && BornDead(lib, s.Entry1(lib), s.t1) && WindowOnly(DirectivesOf(s.reply1.header))
    && Conditional(s.req3, s.reply1.header) == s.req3
  }

  /** Two GETs that store, one that is served stale, and the revalidation it started. */
  function Steps(s: Scene): seq<Step> {
    [Foreground(s.req1, Some(s.reply1), Still(s.t1), NO_FAULTS),
     Foreground(s.req2, Some(s.reply2), Still(s.t2), NO_FAULTS),
     Foreground(s.req3, None, Still(s.t2), NO_FAULTS),
     Background(0, Some(Reply(304, map[], "")), Still(s.t2), NO_FAULTS)]
  }

  function OneVariant(lib: Library, s: Scene): World {
    World(map[s.Entry1(lib).id := Stored(s.Entry1(lib))][s.Url().key := Refs([s.Ref1(lib)])], [],
          [Exchange(s.req1, s.reply1, s.t1, s.t1)])
  }

  function TwoVariants(lib: Library, s: Scene): World {
    var w := OneVariant(lib, s);
    World(w.conn[s.Entry2(lib).id := Stored(s.Entry2(lib))][s.Url().key := Refs([s.Ref1(lib), s.Ref2(lib)])], [],
          w.trace + [Exchange(s.req2, s.reply2, s.t2, s.t2)])
  }

  lemma StoresFirst(lib: Library, s: Scene)
    requires Simple(lib, s.reply1, s.t1) && Undemanding(s.req1)
    ensures Next(lib, INIT, Foreground(s.req1, Some(s.reply1), Still(s.t1), NO_FAULTS)) == OneVariant(lib, s)
  {
    MissGet(lib, INIT, s.req1, s.reply1, s.t1, s.t1);
    assert Find(lib, INIT.conn, s.req1, NO_FAULTS).Nothing?;
    assert [] + [s.Ref1(lib)] == [s.Ref1(lib)];
  }

  lemma IdsAreNoKeys(lib: Library, s: Scene)
    requires Plays(lib, s)
    ensures s.Ref1(lib).id != s.Url().key && s.Ref2(lib).id != s.Url().key
  {
    Vary.VaryKeyHasHash(lib, s.Url().key, s.Ref1(lib).resolved);
    Vary.VaryKeyHasHash(lib, s.Url().key, s.Ref2(lib).resolved);
  }

  lemma FirstMissed(lib: Library, s: Scene)
    requires Plays(lib, s) && Vary.PermutesRefs(lib)
    ensures Find(lib, OneVariant(lib, s).conn, s.req2, NO_FAULTS) == NoMatch([s.Ref1(lib)])
  {
    IdsAreNoKeys(lib, s);
    OneRefLookup(lib, OneVariant(lib, s).conn, s.Ref1(lib), s.Entry1(lib), s.req2);
  }

  lemma StoresSecond(lib: Library, s: Scene, w: World)
    requires Find(lib, w.conn, s.req2, NO_FAULTS) == NoMatch([s.Ref1(lib)]) && w == OneVariant(lib, s)
    requires Simple(lib, s.reply2, s.t2) && Undemanding(s.req2) && s.req2.url == s.Url()
    ensures Next(lib, w, Foreground(s.req2, Some(s.reply2), Still(s.t2), NO_FAULTS)) == TwoVariants(lib, s)
  {
    MissGet(lib, w, s.req2, s.reply2, s.t2, s.t2);
    assert |w.trace| == 1;
    assert [s.Ref1(lib)] + [s.Ref2(lib)] == [s.Ref1(lib), s.Ref2(lib)];
  }

  lemma BothThere(lib: Library, s: Scene)
    requires s.Ref1(lib).id != s.Url().key && s.Ref2(lib).id != s.Url().key && s.Ref1(lib).id != s.Ref2(lib).id
    ensures var conn := TwoVariants(lib, s).conn;
            && s.Url().key in conn && conn[s.Url().key] == Refs([s.Ref1(lib), s.Ref2(lib)])
            && GetEntry(conn, s.Ref1(lib).id, NO_FAULTS) == Some(s.Entry1(lib))
            && (s.req2.url == s.Url() ==> GetEntry(conn, s.Ref2(lib).id, NO_FAULTS) == Some(s.Entry2(lib)))
  {
    assert s.Entry1(lib).id == s.Ref1(lib).id && s.Entry2(lib).id == s.Ref2(lib).id;
  }

  /** A lookup finds the entry of the ref it selects. */
  lemma FoundAs(lib: Library, conn: Conn, req: Request, refs: seq<Ref>, r: Ref, e: Entry)
    requires req.url.key in conn && conn[req.url.key] == Refs(refs) && refs != []
    requires var sorted := lib.sortRefs(refs);
             var i := Vary.FirstMatch(lib, sorted, req.header);
             i < |sorted| && sorted[i] == r
    requires GetEntry(conn, r.id, NO_FAULTS) == Some(e)
    ensures var l := Find(lib, conn, req, NO_FAULTS);
            l.Found? && l.entry == e
  {
  }

  /** The third request selects the first variant, although the second matches and is later. */
  lemma EarlierFound(lib: Library, s: Scene)
    requires Plays(lib, s) && Vary.SortsRefs(lib)
    ensures var l := Find(lib, TwoVariants(lib, s).conn, s.req3, NO_FAULTS);
            l.Found? && l.entry == s.Entry1(lib)
  {
    SelectsEarlier(lib, s.Ref1(lib), s.Ref2(lib), s.req3.header);
    IdsAreNoKeys(lib, s);
    BothThere(lib, s);
    FoundAs(lib, TwoVariants(lib, s).conn, s.req3, [s.Ref1(lib), s.Ref2(lib)], s.Ref1(lib), s.Entry1(lib));
  }

  lemma SelectsEarlier(lib: Library, r1: Ref, r2: Ref, h: Header)
    requires Vary.SortsRefs(lib) && Vary.Matches(lib, r1, h)
    requires Vary.Class(r1) == Vary.Class(r2) && r1.receivedAt < r2.receivedAt
    ensures var sorted := lib.sortRefs([r1, r2]);
            var i := Vary.FirstMatch(lib, sorted, h);
            i < |sorted| && sorted[i] == r1
  {
    var sorted := lib.sortRefs([r1, r2]);
    Vary.EarliestPreferred(lib, [r1, r2], h, r1);
    OneOfTwo([r1, r2], sorted, Vary.FirstMatch(lib, sorted, h));
  }

  lemma SelectsOnly(lib: Library, r1: Ref, r2: Ref, h: Header)
    requires Vary.SortsRefs(lib) && !Vary.Matches(lib, r1, h) && Vary.Matches(lib, r2, h)
    ensures var sorted := lib.sortRefs([r1, r2]);
            var i := Vary.FirstMatch(lib, sorted, h);
            i < |sorted| && sorted[i] == r2
  {
    var sorted := lib.sortRefs([r1, r2]);
    Vary.EarliestPreferred(lib, [r1, r2], h, r2);
    OneOfTwo([r1, r2], sorted, Vary.FirstMatch(lib, sorted, h));
  }

  lemma OneOfTwo(refs: seq<Ref>, sorted: seq<Ref>, i: nat)
    requires |refs| == 2 && multiset(sorted) == multiset(refs) && i < |sorted|
    ensures sorted[i] == refs[0] || sorted[i] == refs[1]
  {
    Vary.SamePermutation(refs, sorted);
    assert sorted[i] in sorted;
  }

  /** The second request still selects its own. */
  lemma SecondFound(lib: Library, s: Scene)
    requires Plays(lib, s) && Vary.SortsRefs(lib)
    ensures var l := Find(lib, TwoVariants(lib, s).conn, s.req2, NO_FAULTS);
            l.Found? && l.entry == s.Entry2(lib)
  {
    SelectsOnly(lib, s.Ref1(lib), s.Ref2(lib), s.req2.header);
    IdsAreNoKeys(lib, s);
    BothThere(lib, s);
    FoundAs(lib, TwoVariants(lib, s).conn, s.req2, [s.Ref1(lib), s.Ref2(lib)], s.Ref2(lib), s.Entry2(lib));
  }

  function Revalidating(lib: Library, s: Scene): World
    requires Plays(lib, s)
  {
    TwoVariants(lib, s).(pending := [StaleJob(s.req3, s.Entry1(lib), s.t1, s.t2)])
  }

  lemma ServesFirst(lib: Library, s: Scene)
    requires Plays(lib, s) && Vary.SortsRefs(lib)
    ensures Next(lib, TwoVariants(lib, s), Steps(s)[2]) == Revalidating(lib, s)
  {
    EarlierFound(lib, s);
    StaleGetOf(lib, TwoVariants(lib, s), s.req3, s.Entry1(lib), s.t1, s.t2);
  }

  lemma StaleGetOf(lib: Library, w: World, req: Request, e: Entry, t: Time, now: Time)
    requires var l := Find(lib, w.conn, req, NO_FAULTS); l.Found? && l.entry == e
    requires Undemanding(req) && w.pending == [] && Conditional(req, e.data.header) == req
    requires BornDead(lib, e, t) && WindowOnly(DirectivesOf(e.data.header)) && t <= now < t + 60 * SECOND
    ensures Next(lib, w, Foreground(req, None, Still(now), NO_FAULTS)) == w.(pending := [StaleJob(req, e, t, now)])
  {
    var l := Find(lib, w.conn, req, NO_FAULTS);
    StaleGet(lib, w, req, e, l.refs, l.index, t, now);
  }

  /** The 304 to that revalidation makes the second variant unreachable. */
  lemma Forgets(lib: Library, s: Scene)
    requires Plays(lib, s) && Vary.SortsRefs(lib)
    ensures var l := Find(lib, Next(lib, Revalidating(lib, s), Steps(s)[3]).conn, s.req2, NO_FAULTS);
            !(l.Found? && l.entry == s.Entry2(lib))
  {
    SecondFound(lib, s);
    JobForgets(lib, Revalidating(lib, s), s.req2, s.Entry2(lib), Reply(304, map[], ""), Still(s.t2));
  }

  lemma JobForgets(lib: Library, w: World, req: Request, e: Entry, reply: Reply, clock: Clock)
    requires Vary.PermutesRefs(lib) && |w.pending| == 1 && |w.trace| == 2 && reply.status == 304
    requires w.pending[0].req.verb == "GET" && w.pending[0].req.url == req.url && '#' !in req.url.key
    requires e.lineage == [1] && w.pending[0].stored.lineage == [0]
    requires var l := Find(lib, w.conn, req, NO_FAULTS); l.Found? && l.entry == e
    ensures var l := Find(lib, Next(lib, w, Background(0, Some(reply), clock, NO_FAULTS)).conn, req, NO_FAULTS);
            !(l.Found? && l.entry == e)
  {
    FreshenedWritten(lib, w.conn, w.pending[0], reply, clock);
    Agreement.BackgroundForgets(lib, w, 0, Some(reply), clock, NO_FAULTS, req, NO_FAULTS);
  }

  lemma FreshenedWritten(lib: Library, conn: Conn, j: Job, reply: Reply, clock: Clock)
    requires j.req.verb == "GET" && reply.status == 304
    ensures var eff := BackgroundRevalidate(lib, conn, 2, j, Some(reply), clock, NO_FAULTS).effect;
            eff.Store? && eff.entry.lineage == j.stored.lineage + [2]
  {
  }

  lemma Plot(lib: Library, s: Scene)
    requires Plays(lib, s) && Vary.SortsRefs(lib)
    ensures Run(lib, INIT, Steps(s)[..2]) == TwoVariants(lib, s)
    ensures Run(lib, INIT, Steps(s)) == Next(lib, Revalidating(lib, s), Steps(s)[3])
  {
    RunFour(lib, Steps(s));
    StoresFirst(lib, s);
    FirstMissed(lib, s);
    StoresSecond(lib, s, OneVariant(lib, s));
    ServesFirst(lib, s);
  }

  // ----- Two of them -----

  function Asks(url: URL, accept: string, language: string): Request {
    Request("GET", url, map["Accept" := [accept], "Accept-Language" := [language]])
  }

  function PageScene(url: URL, d1: string, d2: string, t1: Time, t2: Time): Scene {
    Scene(Asks(url, "text/html", "fr"), Asks(url, "application/json", "en"), Asks(url, "text/html", "en"),
          Reply(200, map["Date" := [d1], "Vary" := ["Accept"], "Cache-Control" := [SWR_60]], "earlier"),
          Reply(200, map["Date" := [d2], "Vary" := ["Accept-Language"]], "later"), t1, t2)
  }

  /** The date lines stand for the times, the two media types have different normal forms, and
      the two sets of fields different hashes. */
  ghost predicate Setting(lib: Library, url: URL, d1: string, d2: string, t1: Time, t2: Time) {
    && Vary.SortsRefs(lib) && '#' !in url.key
    && d1 != "" && lib.parseTime(d1) == Some(t1) && t1 != ZERO_TIME
    && d2 != "" && lib.parseTime(d2) == Some(t2) && t2 != ZERO_TIME
    && t1 < t2 < t1 + 60 * SECOND
    && lib.normalizeValue("Accept", "text/html") != lib.normalizeValue("Accept", "application/json")
    && lib.varyHash(map["Accept" := lib.normalizeValue("Accept", "text/html")])
       != lib.varyHash(map["Accept-Language" := lib.normalizeValue("Accept-Language", "en")])
  }

  lemma AskedValues(lib: Library, url: URL, accept: string, language: string)
    ensures var h := Asks(url, accept, language).header;
            && Vary.Normalized(lib, h, "Accept") == lib.normalizeValue("Accept", accept)
            && Vary.Normalized(lib, h, "Accept-Language") == lib.normalizeValue("Accept-Language", language)
            && Undemanding(Asks(url, accept, language))
  {
    assert |"Accept"| == 6 && |"Accept-Language"| == 15;
    assert "Range"[0] == 'R' && "Cache-Control"[0] == 'C' && "Accept"[0] == 'A' && "Accept-Language"[0] == 'A';
  }

  /** A Vary of one name resolves to one pair. */
  lemma OneResolved(lib: Library, name: string, h: Header)
    requires IsToken(name) && CanonicalKey(name) == name
    ensures Vary.Resolve(lib, name, h) == map[name := Vary.Normalized(lib, h, name)]
  {
    Csv.TokenIsElement(name);
    assert Csv.Join([name], ", ") == name;
    Csv.SplitJoin([name]);
    var names := Vary.Nominated(name);
    assert names == [name];
    assert name in names;
  }

  lemma AcceptNames()
    ensures IsToken("Accept") && CanonicalKey("Accept") == "Accept"
    ensures IsToken("Accept-Language") && CanonicalKey("Accept-Language") == "Accept-Language"
  {
    AcceptToken();
    IsCanonical("Accept");
    AcceptLanguageToken();
    IsCanonical("Accept-Language");
  }

  lemma AcceptToken()
    ensures var s := "Accept";
            IsToken(s) && forall i :: 0 <= i < |s| ==> CanonicalAt(s, i)
  {
  }

  lemma AcceptLanguageToken()
    ensures var s := "Accept-Language";
            IsToken(s) && forall i :: 0 <= i < |s| ==> CanonicalAt(s, i)
  {
  }

  predicate CanonicalAt(s: string, i: nat)
    requires i < |s|
  {
    if i == 0 || s[i - 1] == '-' then !IsLower(s[i]) else !IsUpper(s[i])
  }

  /** A token with capitals after hyphens, and nowhere else, is its own canonical form. */
  lemma IsCanonical(s: string)
    requires IsToken(s) && forall i :: 0 <= i < |s| ==> CanonicalAt(s, i)
    ensures CanonicalKey(s) == s
  {
    var t := CanonicalKey(s);
    forall i | 0 <= i < |s| ensures t[i] == s[i] {
      assert CanonicalAt(s, i);
    }
  }

  lemma Reply1Header(d1: string)
    ensures var h: Header := map["Date" := [d1], "Vary" := ["Accept"], "Cache-Control" := [SWR_60]];
            && VaryOf(h) == "Accept" && Get(h, "Date") == d1 && Get(h, "Cache-Control") == SWR_60
            && Get(h, "Age") == "" && Get(h, "Expires") == "" && Get(h, "Last-Modified") == "" && Get(h, "Etag") == ""
  {
    assert "Date"[0] == 'D' && "Vary"[0] == 'V' && "Cache-Control"[0] == 'C';
    assert "Age"[0] == 'A' && "Expires"[0] == 'E' && "Etag"[0] == 'E' && "Last-Modified"[0] == 'L';
  }

  lemma Reply2Header(d2: string)
    ensures var h: Header := map["Date" := [d2], "Vary" := ["Accept-Language"]];
            VaryOf(h) == "Accept-Language" && Get(h, "Date") == d2 && Get(h, "Cache-Control") == ""
  {
    assert "Date"[0] == 'D' && "Vary"[0] == 'V' && "Cache-Control"[0] == 'C';
  }

  /** Headers of these fields are kept whole. */
  lemma KeptWhole(h: Header)
    requires h.Keys <= {"Date", "Vary", "Cache-Control"}
    ensures EndToEnd(h) == h
  {
    NotHop();
    VaryNotHop();
    EndToEndFixpoint(h);
  }

  lemma BlankFree(s: string)
    requires s != "" && !IsBlank(s[0]) && !IsBlank(s[|s| - 1])
    ensures DropBlanks(s) == s
  {
  }

  lemma SameClass(a: Ref, b: Ref)
    requires a.vary == "Accept" && b.vary == "Accept-Language"
    ensures Vary.Class(a) == Vary.Class(b)
  {
    BlankFree("Accept");
    BlankFree("Accept-Language");
    assert "Accept"[0] != '*' && "Accept-Language"[0] != '*';
  }

  lemma FirstRef(lib: Library, url: URL, d1: string, d2: string, t1: Time, t2: Time)
    ensures var s := PageScene(url, d1, d2, t1, t2);
            s.Ref1(lib).vary == "Accept" &&
            s.Ref1(lib).resolved == map["Accept" := lib.normalizeValue("Accept", "text/html")]
  {
    Reply1Header(d1);
    AcceptNames();
    AskedValues(lib, url, "text/html", "fr");
    OneResolved(lib, "Accept", Asks(url, "text/html", "fr").header);
  }

  lemma SecondRef(lib: Library, url: URL, d1: string, d2: string, t1: Time, t2: Time)
    ensures var s := PageScene(url, d1, d2, t1, t2);
            s.Ref2(lib).vary == "Accept-Language" &&
            s.Ref2(lib).resolved == map["Accept-Language" := lib.normalizeValue("Accept-Language", "en")]
  {
    Reply2Header(d2);
    AcceptNames();
    AskedValues(lib, url, "application/json", "en");
    OneResolved(lib, "Accept-Language", Asks(url, "application/json", "en").header);
  }

  /** A ref of one pair matches exactly the requests with that normal form. */
  lemma OnePairMatches(lib: Library, r: Ref, name: string, value: string, h: Header)
    requires r.vary == name && name != "*" && r.resolved == map[name := value]
    ensures Vary.Matches(lib, r, h) <==> Vary.Normalized(lib, h, name) == value
  {
  }

  lemma DifferentIds(lib: Library, u: string, m: map<string, string>, n: map<string, string>)
    requires m != map[] && n != map[] && lib.varyHash(m) != lib.varyHash(n)
    ensures Vary.VaryKey(lib, u, m) != Vary.VaryKey(lib, u, n)
  {
    var a, b := Vary.VaryKey(lib, u, m), Vary.VaryKey(lib, u, n);
    assert a[|u| + 1..] == Decimal(lib.varyHash(m)) && b[|u| + 1..] == Decimal(lib.varyHash(n));
    if a == b {
      Agreement.DecimalInjective(lib.varyHash(m), lib.varyHash(n));
    }
  }

  lemma PageHeaders(lib: Library, d1: string, d2: string, t1: Time, t2: Time, url: URL)
    requires Setting(lib, url, d1, d2, t1, t2)
    ensures var s := PageScene(url, d1, d2, t1, t2);
            && Simple(lib, s.reply1, t1) && Simple(lib, s.reply2, t2)
            && BornDead(lib, s.Entry1(lib), t1) && WindowOnly(DirectivesOf(s.reply1.header))
            && Conditional(s.req3, s.reply1.header) == s.req3
  {
    var s := PageScene(url, d1, d2, t1, t2);
    Reply1Header(d1);
    Reply2Header(d2);
    KeptWhole(s.reply1.header);
    KeptWhole(s.reply2.header);
    OldStorable(s.reply1.header);
    SwrWindow(s.reply1.header);
  }

  lemma PageMatches(lib: Library, d1: string, d2: string, t1: Time, t2: Time, url: URL)
    requires Setting(lib, url, d1, d2, t1, t2)
    ensures var s := PageScene(url, d1, d2, t1, t2);
            && !Vary.Matches(lib, s.Ref1(lib), s.req2.header) && Vary.Matches(lib, s.Ref2(lib), s.req2.header)
            && Vary.Matches(lib, s.Ref1(lib), s.req3.header) && Vary.Matches(lib, s.Ref2(lib), s.req3.header)
  {
    var s := PageScene(url, d1, d2, t1, t2);
    var html, en := lib.normalizeValue("Accept", "text/html"), lib.normalizeValue("Accept-Language", "en");
    FirstRef(lib, url, d1, d2, t1, t2);
    SecondRef(lib, url, d1, d2, t1, t2);
    AskedValues(lib, url, "application/json", "en");
    AskedValues(lib, url, "text/html", "en");
    assert "Accept"[0] == 'A' && "Accept-Language"[0] == 'A';
    OnePairMatches(lib, s.Ref1(lib), "Accept", html, s.req2.header);
    OnePairMatches(lib, s.Ref2(lib), "Accept-Language", en, s.req2.header);
    OnePairMatches(lib, s.Ref1(lib), "Accept", html, s.req3.header);
    OnePairMatches(lib, s.Ref2(lib), "Accept-Language", en, s.req3.header);
  }

  lemma PagePlays(lib: Library, d1: string, d2: string, t1: Time, t2: Time, url: URL)
    requires Setting(lib, url, d1, d2, t1, t2)
    ensures Plays(lib, PageScene(url, d1, d2, t1, t2))
  {
    var s := PageScene(url, d1, d2, t1, t2);
    PageHeaders(lib, d1, d2, t1, t2, url);
    PageMatches(lib, d1, d2, t1, t2, url);
    AskedValues(lib, url, "text/html", "fr");
    AskedValues(lib, url, "application/json", "en");
    AskedValues(lib, url, "text/html", "en");
    FirstRef(lib, url, d1, d2, t1, t2);
    SecondRef(lib, url, d1, d2, t1, t2);
    SameClass(s.Ref1(lib), s.Ref2(lib));
    DifferentIds(lib, url.key, s.Ref1(lib).resolved, s.Ref2(lib).resolved);
  }

  /** From the empty cache: a GET for HTML in French is answered with Vary: Accept, one for JSON in
      English later with Vary: Accept-Language. A GET for HTML in English then gets the earlier
      reply, although the later one matches it too. */
  lemma EarlierServed(lib: Library, url: URL, d1: string, d2: string, t1: Time, t2: Time)
    requires Setting(lib, url, d1, d2, t1, t2)
    ensures var s := PageScene(url, d1, d2, t1, t2);
            var w := Run(lib, INIT, Steps(s)[..2]);
            var l := Find(lib, w.conn, s.req3, NO_FAULTS);
            && l.Found? && l.entry.data.body == "earlier"
            && w.conn[url.key] == Refs([s.Ref1(lib), s.Ref2(lib)])
            && s.Ref1(lib).receivedAt < s.Ref2(lib).receivedAt && Vary.Matches(lib, s.Ref2(lib), s.req3.header)
  {
    var s := PageScene(url, d1, d2, t1, t2);
    PagePlays(lib, d1, d2, t1, t2, url);
    Plot(lib, s);
    EarlierFound(lib, s);
  }

  /** In the same run the revalidation of the first reply, answered 304, loses the second: the GET
      it was stored for found it before, and does not after. */
  lemma VariantForgotten(lib: Library, url: URL, d1: string, d2: string, t1: Time, t2: Time)
    requires Setting(lib, url, d1, d2, t1, t2)
    ensures var s := PageScene(url, d1, d2, t1, t2);
            var before := Find(lib, Run(lib, INIT, Steps(s)[..2]).conn, s.req2, NO_FAULTS);
            var after := Find(lib, Run(lib, INIT, Steps(s)).conn, s.req2, NO_FAULTS);
            before.Found? && before.entry.data.body == "later" && !(after.Found? && after.entry == before.entry)
  {
    var s := PageScene(url, d1, d2, t1, t2);
    PagePlays(lib, d1, d2, t1, t2, url);
    Plot(lib, s);
    SecondFound(lib, s);
    Forgets(lib, s);
  }

  // ----- Two that hash alike -----

  /** The first two requests differ in fields the Vary of both replies nominates, but their
      response IDs are the same. */
  predicate Collides(lib: Library, s: Scene) {
    && '#' !in s.Url().key && s.req2.url == s.Url() && s.Ref1(lib).id == s.Ref2(lib).id
    && Undemanding(s.req1) && Undemanding(s.req2) && Simple(lib, s.reply1, s.t1) && Simple(lib, s.reply2, s.t2)
    && Vary.Matches(lib, s.Ref1(lib), s.req1.header) && !Vary.Matches(lib, s.Ref1(lib), s.req2.header)
    && !Vary.Matches(lib, s.Ref2(lib), s.req1.header)
    && BornDead(lib, s.Entry2(lib), s.t2) && WindowOnly(DirectivesOf(s.reply2.header))
  }

  lemma CollidingMissed(lib: Library, s: Scene)
    requires Collides(lib, s) && Vary.PermutesRefs(lib)
    ensures Find(lib, OneVariant(lib, s).conn, s.req2, NO_FAULTS) == NoMatch([s.Ref1(lib)])
  {
    Vary.VaryKeyHasHash(lib, s.Url().key, s.Ref1(lib).resolved);
    OneRefLookup(lib, OneVariant(lib, s).conn, s.Ref1(lib), s.Entry1(lib), s.req2);
  }

  /** Only one of two refs matches, the first. */
  lemma SelectsFirst(lib: Library, r1: Ref, r2: Ref, h: Header)
    requires Vary.SortsRefs(lib) && Vary.Matches(lib, r1, h) && !Vary.Matches(lib, r2, h)
    ensures var sorted := lib.sortRefs([r1, r2]);
            var i := Vary.FirstMatch(lib, sorted, h);
            i < |sorted| && sorted[i] == r1
  {
    var sorted := lib.sortRefs([r1, r2]);
    Vary.EarliestPreferred(lib, [r1, r2], h, r1);
    OneOfTwo([r1, r2], sorted, Vary.FirstMatch(lib, sorted, h));
  }

  /** The list still has both refs, but both lead to the second reply. */
  lemma Overwritten(lib: Library, s: Scene)
    requires Collides(lib, s) && Vary.SortsRefs(lib)
    ensures var l := Find(lib, TwoVariants(lib, s).conn, s.req1, NO_FAULTS);
            l.Found? && l.entry == s.Entry2(lib)
  {
    Vary.VaryKeyHasHash(lib, s.Url().key, s.Ref2(lib).resolved);
    SecondThere(lib, s);
    SelectsFirst(lib, s.Ref1(lib), s.Ref2(lib), s.req1.header);
    FoundAs(lib, TwoVariants(lib, s).conn, s.req1, [s.Ref1(lib), s.Ref2(lib)], s.Ref1(lib), s.Entry2(lib));
  }

  lemma SecondThere(lib: Library, s: Scene)
    requires s.req2.url == s.Url() && s.Ref1(lib).id == s.Ref2(lib).id != s.Url().key
    ensures var conn := TwoVariants(lib, s).conn;
            && s.Url().key in conn && conn[s.Url().key] == Refs([s.Ref1(lib), s.Ref2(lib)])
            && GetEntry(conn, s.Ref1(lib).id, NO_FAULTS) == Some(s.Entry2(lib))
  {
    assert s.Entry2(lib).id == s.Ref2(lib).id;
  }

  lemma RunTwo(lib: Library, a: Step, b: Step)
    ensures Run(lib, INIT, [a, b]) == Next(lib, Next(lib, INIT, a), b)
  {
    assert [a, b][..1] == [a] && [a][..0] == [];
    assert Run(lib, INIT, []) == INIT;
    assert Run(lib, INIT, [a]) == Next(lib, INIT, a);
  }

  function StoringSteps(s: Scene): seq<Step> {
    [Foreground(s.req1, Some(s.reply1), Still(s.t1), NO_FAULTS),
     Foreground(s.req2, Some(s.reply2), Still(s.t2), NO_FAULTS)]
  }

  lemma CollidingRun(lib: Library, s: Scene)
    requires Collides(lib, s) && Vary.SortsRefs(lib)
    ensures Run(lib, INIT, StoringSteps(s)) == TwoVariants(lib, s)
  {
    RunTwo(lib, StoringSteps(s)[0], StoringSteps(s)[1]);
    StoresFirst(lib, s);
    CollidingMissed(lib, s);
    StoresSecond(lib, s, OneVariant(lib, s));
  }

  lemma ServesFound(lib: Library, w: World, req: Request, e: Entry, t: Time)
    requires var l := Find(lib, w.conn, req, NO_FAULTS); l.Found? && l.entry == e
    requires Undemanding(req) && BornDead(lib, e, t) && WindowOnly(DirectivesOf(e.data.header))
    ensures var v := RoundTrip(lib, w.conn, |w.trace|, req, None, Still(t), NO_FAULTS);
            WithoutContact(v) && Carries(v.outcome.reply, e.data)
  {
    var l := Find(lib, w.conn, req, NO_FAULTS);
    WindowServes(lib, w.conn, |w.trace|, req, e, l.refs, l.index, t, t);
    StampShows(e.data, STALE);
  }

  // ----- Two such requests -----

  const BOTH: string := "Accept, Accept-Language"

  /** Requests that say "Accept-Language" in one of the two fields and nothing in the other. */
  function SwappedScene(url: URL, date: string, t: Time): Scene {
    var first := Request("GET", url, map["Accept" := ["Accept-Language"]]);
    var second := Request("GET", url, map["Accept-Language" := ["Accept-Language"]]);
    var h := map["Date" := [date], "Vary" := [BOTH], "Cache-Control" := [SWR_60]];
    Scene(first, second, first, Reply(200, h, "first"), Reply(200, h, "second"), t, t)
  }

  /** The date line stands for the time, the value is its own normal form, and sets of fields are
      hashed by their text. */
  ghost predicate TextHashed(lib: Library, hash: string -> nat, url: URL, date: string, t: Time) {
    && Vary.SortsRefs(lib) && '#' !in url.key && VaryHash.HashesText(lib, hash)
    && date != "" && lib.parseTime(date) == Some(t) && t != ZERO_TIME
    && lib.normalizeValue("Accept", "Accept-Language") == "Accept-Language"
    && lib.normalizeValue("Accept-Language", "Accept-Language") == "Accept-Language"
  }

  /** A Vary of two names resolves to two pairs. */
  lemma TwoResolved(lib: Library, a: string, b: string, h: Header)
    requires IsToken(a) && CanonicalKey(a) == a && IsToken(b) && CanonicalKey(b) == b
    ensures Vary.Resolve(lib, a + ", " + b, h) == map[a := Vary.Normalized(lib, h, a), b := Vary.Normalized(lib, h, b)]
  {
    HeaderValues.TwoElements(a, b);
    var names := Vary.Nominated(a + ", " + b);
    assert names == [a, b];
    assert names[0] in names && names[1] in names;
  }

  lemma {:induction false} PrefixFirst(a: string, b: string)
    ensures Ordering.CompareStrings(a, a + b) <= 0
  {
    if a != "" {
      PrefixFirst(a[1..], b);
      assert (a + b)[1..] == a[1..] + b && (a + b)[0] == a[0];
    }
  }

  lemma TwoNames(a: string, rest: string, m: map<string, string>)
    requires rest != "" && m.Keys == {a, a + rest}
    ensures VaryHash.SortedNames([a, a + rest], m)
  {
    PrefixFirst(a, rest);
    assert |a| != |a + rest|;
    assert multiset([a, a + rest]) == multiset{a, a + rest} == multiset(m.Keys);
  }

  /** The second name as the value of the first, or as its own: one hash. */
  lemma SwappedHash(lib: Library, hash: string -> nat, a: string, rest: string)
    requires rest != "" && VaryHash.HashesText(lib, hash)
    ensures lib.varyHash(map[a := a + rest, a + rest := ""]) == lib.varyHash(map[a := "", a + rest := a + rest])
  {
    var b := a + rest;
    assert |a| != |b|;
    var m, n := map[a := b, b := ""], map[a := "", b := b];
    TwoNames(a, rest, m);
    TwoNames(a, rest, n);
    VaryHash.ShiftedValue([a, b], m, n);
  }

  lemma SwappedRefs(lib: Library, hash: string -> nat, url: URL, date: string, t: Time)
    requires TextHashed(lib, hash, url, date, t)
    ensures var s := SwappedScene(url, date, t);
            && s.Ref1(lib).vary == BOTH == s.Ref2(lib).vary
            && s.Ref1(lib).resolved == map["Accept" := "Accept-Language", "Accept-Language" := ""]
            && s.Ref2(lib).resolved == map["Accept" := "", "Accept-Language" := "Accept-Language"]
  {
    var s := SwappedScene(url, date, t);
    BothVary(date);
    SwappedValues(lib, url);
    BothRef(lib, s.req1, s.reply1, t, "Accept-Language", "");
    BothRef(lib, s.req2, s.reply2, t, "", "Accept-Language");
  }

  lemma BothRef(lib: Library, req: Request, reply: Reply, t: Time, v: string, x: string)
    requires VaryOf(reply.header) == BOTH
    requires Vary.Normalized(lib, req.header, "Accept") == v && Vary.Normalized(lib, req.header, "Accept-Language") == x
    ensures var r := RefOf(lib, req, reply, t);
            r.vary == BOTH && r.resolved == map["Accept" := v, "Accept-Language" := x]
  {
    BothResolved(lib, req.header);
  }

  lemma BothResolved(lib: Library, h: Header)
    ensures Vary.Resolve(lib, BOTH, h)
            == map["Accept" := Vary.Normalized(lib, h, "Accept"),
                   "Accept-Language" := Vary.Normalized(lib, h, "Accept-Language")]
  {
    AcceptNames();
    BothJoined();
    ResolvedLine(lib, BOTH, "Accept", "Accept-Language", h);
  }

  lemma BothJoined()
    ensures BOTH == "Accept" + ", " + "Accept-Language" && |"Accept"| < |"Accept-Language"|
  {
  }

  lemma ResolvedLine(lib: Library, line: string, a: string, b: string, h: Header)
    requires line == a + ", " + b && IsToken(a) && CanonicalKey(a) == a && IsToken(b) && CanonicalKey(b) == b
    ensures Vary.Resolve(lib, line, h) == map[a := Vary.Normalized(lib, h, a), b := Vary.Normalized(lib, h, b)]
  {
    TwoResolved(lib, a, b, h);
  }

  lemma SwappedValues(lib: Library, url: URL)
    ensures var h: Header := map["Accept" := ["Accept-Language"]];
            && Vary.Normalized(lib, h, "Accept") == lib.normalizeValue("Accept", "Accept-Language")
            && Vary.Normalized(lib, h, "Accept-Language") == ""
            && Undemanding(Request("GET", url, h))
    ensures var h: Header := map["Accept-Language" := ["Accept-Language"]];
            && Vary.Normalized(lib, h, "Accept-Language") == lib.normalizeValue("Accept-Language", "Accept-Language")
            && Vary.Normalized(lib, h, "Accept") == ""
            && Undemanding(Request("GET", url, h))
  {
    assert |"Accept"| == 6 && |"Accept-Language"| == 15;
    assert "Range"[0] == 'R' && "Cache-Control"[0] == 'C' && "Accept"[0] == 'A' && "Accept-Language"[0] == 'A';
  }

  lemma BothVary(date: string)
    ensures var h: Header := map["Date" := [date], "Vary" := [BOTH], "Cache-Control" := [SWR_60]];
            && VaryOf(h) == BOTH && Get(h, "Date") == date && Get(h, "Cache-Control") == SWR_60
            && Get(h, "Age") == "" && Get(h, "Expires") == "" && Get(h, "Last-Modified") == ""
  {
    assert "Date"[0] == 'D' && "Vary"[0] == 'V' && "Cache-Control"[0] == 'C';
    assert "Age"[0] == 'A' && "Expires"[0] == 'E' && "Last-Modified"[0] == 'L';
  }

  lemma SwappedReplies(lib: Library, hash: string -> nat, url: URL, date: string, t: Time)
    requires TextHashed(lib, hash, url, date, t)
    ensures var s := SwappedScene(url, date, t);
            && Simple(lib, s.reply1, t) && Simple(lib, s.reply2, t)
            && BornDead(lib, s.Entry2(lib), t) && WindowOnly(DirectivesOf(s.reply2.header))
  {
    var h: Header := map["Date" := [date], "Vary" := [BOTH], "Cache-Control" := [SWR_60]];
    BothVary(date);
    KeptWhole(h);
    OldStorable(h);
    SwrWindow(h);
  }

  lemma TwoPairsMatch(lib: Library, r: Ref, a: string, b: string, v: string, x: string, h: Header)
    requires r.vary != "*" && a != b && r.resolved == map[a := v, b := x]
    ensures Vary.Matches(lib, r, h) <==> Vary.Normalized(lib, h, a) == v && Vary.Normalized(lib, h, b) == x
  {
  }

  lemma SwappedMatches(lib: Library, hash: string -> nat, url: URL, date: string, t: Time)
    requires TextHashed(lib, hash, url, date, t)
    ensures var s := SwappedScene(url, date, t);
            && Vary.Matches(lib, s.Ref1(lib), s.req1.header) && !Vary.Matches(lib, s.Ref1(lib), s.req2.header)
            && !Vary.Matches(lib, s.Ref2(lib), s.req1.header)
  {
    var s := SwappedScene(url, date, t);
    SwappedRefs(lib, hash, url, date, t);
    SwappedValues(lib, url);
    assert |"Accept"| == 6 && |"Accept-Language"| == 15 && |BOTH| > 1;
    TwoPairsMatch(lib, s.Ref1(lib), "Accept", "Accept-Language", "Accept-Language", "", s.req1.header);
    TwoPairsMatch(lib, s.Ref1(lib), "Accept", "Accept-Language", "Accept-Language", "", s.req2.header);
    TwoPairsMatch(lib, s.Ref2(lib), "Accept", "Accept-Language", "", "Accept-Language", s.req1.header);
  }

  lemma SwappedIds(lib: Library, hash: string -> nat, url: URL, date: string, t: Time)
    requires TextHashed(lib, hash, url, date, t)
    ensures var s := SwappedScene(url, date, t);
            s.Ref1(lib).id == s.Ref2(lib).id
  {
    SwappedRefs(lib, hash, url, date, t);
    assert "Accept" + "-Language" == "Accept-Language";
    SwappedHash(lib, hash, "Accept", "-Language");
  }

  /** From the empty cache: under any hash of the text the second request's reply overwrites the
      first one's, and the first request, repeated, is served it without contact. */
  lemma WrongVariantServed(lib: Library, hash: string -> nat, url: URL, date: string, t: Time)
    requires TextHashed(lib, hash, url, date, t)
    ensures var s := SwappedScene(url, date, t);
            var w := Run(lib, INIT, StoringSteps(s));
            var v := RoundTrip(lib, w.conn, |w.trace|, s.req1, None, Still(t), NO_FAULTS);
            && WithoutContact(v) && v.outcome.reply.body == "second"
            && !Vary.Matches(lib, s.Ref2(lib), s.req1.header)
  {
    var s := SwappedScene(url, date, t);
    SwappedReplies(lib, hash, url, date, t);
    SwappedMatches(lib, hash, url, date, t);
    SwappedIds(lib, hash, url, date, t);
    SwappedValues(lib, url);
    CollidingRun(lib, s);
    Overwritten(lib, s);
    ServesFound(lib, TwoVariants(lib, s), s.req1, s.Entry2(lib), t);
  }
}
