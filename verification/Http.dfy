/**
  HTTP messages as the cache sees them, and the header functions of
  `internal/helpers.go`, `internal/header.go`, `internal/clock.go` and `helpers.go`.
 */
module Http {
  import opened Base
  import Csv
  import CacheControl

  /** Field lines by canonical name. */
  type Header = map<string, seq<string>>

  datatype Reply = Reply(status: int, header: Header, body: string)

  /** A parsed URL together with its normalized form, the URL key. */
  datatype URL = URL(scheme: string, hostname: string, port: string, key: string)

  datatype Request = Request(verb: string, url: URL, header: Header)

  /** A reference to a stored response, kept in the list of its URL key. */
  datatype Ref = Ref(id: string, vary: string, resolved: map<string, string>, receivedAt: Time)

  /** A stored response. `lineage` is history, not data the code keeps: the numbers of the
      upstream exchanges the entry came from, the admitted reply first and then the 304s that
      freshened it, oldest first. Nothing branches on it. */
  datatype Entry = Entry(id: string, data: Reply, requestedAt: Time, receivedAt: Time, lineage: seq<nat>)

  /** Code the cache calls and this model does not look into: `http.ParseTime` and
      `Time.Format`, the injected header value normalizer, the 64-bit Vary hash,
      `slices.SortFunc` on refs, and `url.Parse` followed by `ResolveReference`. */
  datatype Library = Library(
    parseTime: string -> Option<Time>,
    formatTime: Time -> string,
    normalizeValue: (string, string) -> string,
    varyHash: map<string, string> -> nat,
    sortRefs: seq<Ref> -> seq<Ref>,
    resolve: (URL, string) -> Option<URL>)

  // ----- Field access -----

  /** `Header.Get` on a canonical name: the first line, or "". */
  function Get(h: Header, name: string): string {
    if name in h && h[name] != [] then h[name][0] else ""
  }

  function Values(h: Header, name: string): seq<string> {
    if name in h then h[name] else []
  }

  function Set(h: Header, name: string, value: string): Header {
    h[name := [value]]
  }

  function DirectivesOf(h: Header): CacheControl.Directives {
    if Get(h, "Cache-Control") == "" then map[] else CacheControl.Parse(Get(h, "Cache-Control"))
  }

  /** All Vary lines as one list. */
  function VaryOf(h: Header): string {
    Csv.Join(Values(h, "Vary"), ",")
  }

  // ----- Status stamps -----

  const STATUS: string := "X-Httpcache-Status"
  const FROM_CACHE: string := "X-From-Cache"

  datatype CacheStatus = HIT | MISS | STALE | REVALIDATED | BYPASS {
    function Value(): string {
      match this
      case HIT => "HIT"
      case MISS => "MISS"
      case STALE => "STALE"
      case REVALIDATED => "REVALIDATED"
      case BYPASS => "BYPASS"
    }

    predicate Legacy() { HIT? || STALE? || REVALIDATED? }
  }

  /** `CacheStatus.ApplyTo` */
  function Stamp(h: Header, s: CacheStatus): Header {
    var h' := Set(h, STATUS, s.Value());
    if s.Legacy() then Set(h', FROM_CACHE, "1") else h'
  }

  function Stamped(r: Reply, s: CacheStatus): Reply {
    r.(header := Stamp(r.header, s))
  }

  /** A header without the two fields the cache stamps. */
  function Bare(h: Header): Header {
    h - {STATUS, FROM_CACHE}
  }

  // ----- Hop-by-hop fields -----

  /** The fixed part of `hopByHopHeaders`; "TE" is listed as written, not as the key "Te". */
  const FIXED_HOP: set<string> := {
    "Connection", "Proxy-Connection", "Keep-Alive", "TE", "Transfer-Encoding", "Upgrade",
    "Proxy-Authenticate", "Proxy-Authentication-Info", "Proxy-Authorization"
  }

  function ConnectionFields(h: Header): set<string> {
    set p | p in Csv.Split(Get(h, "Connection")) :: CanonicalKey(p)
  }

  function HopByHop(h: Header): set<string> {
    FIXED_HOP + ConnectionFields(h)
  }

  function EndToEnd(h: Header): Header {
    h - HopByHop(h)
  }

  /** What a 304 adds to a stored header. */
  function Update(src: Header): Header {
    src - (HopByHop(src) + {"Content-Length"})
  }

  function Merge(h: Header, src: Header): Header {
    h + Update(src)
  }

  /** `removeHopByHopHeaders` */
  method RemoveHopByHopHeaders(h: Header) returns (r: Header)
    ensures r == EndToEnd(h)
  {
    r := DeleteFields(h, HopByHop(h));
  }

  /** The loop of `removeHopByHopHeaders`: deletes the fields one by one, in any order. */
  method DeleteFields(h: Header, unwanted: set<string>) returns (r: Header)
    ensures r == h - unwanted
  {
    r := h;
    var todo := unwanted;
    while todo != {}
      invariant todo <= unwanted
      invariant r == h - (unwanted - todo)
      decreases |todo|
    {
      var hdr :| hdr in todo;
      r := r - {hdr};
      todo := todo - {hdr};
    }
  }

  lemma CopyNone(h: Header, src: Header, excluded: set<string>)
    ensures h + (src - excluded - src.Keys) == h
  {
    assert src - excluded - src.Keys == map[];
  }

  lemma CopiedAll(h: Header, src: Header, excluded: set<string>)
    ensures h + (src - excluded - {}) == h + (src - excluded)
  {
    assert src - excluded - {} == src - excluded;
  }

  lemma CopyOne(h: Header, src: Header, excluded: set<string>, todo: set<string>, hdr: string)
    requires hdr in todo && todo <= src.Keys
    ensures var before := h + (src - excluded - todo);
            h + (src - excluded - (todo - {hdr})) == if hdr in excluded then before else before[hdr := src[hdr]]
  {
    var before := h + (src - excluded - todo);
    var after := h + (src - excluded - (todo - {hdr}));
    if hdr in excluded {
      assert src - excluded - (todo - {hdr}) == src - excluded - todo;
    } else {
      assert after.Keys == before.Keys + {hdr};
    }
  }

  /** The loop of `mergeResponseHeaders`: copies the fields one by one, in any order. */
  method CopyFields(h: Header, src: Header, excluded: set<string>) returns (r: Header)
    ensures r == h + (src - excluded)
  {
    r := h;
    var todo := src.Keys;
    CopyNone(h, src, excluded);
    while todo != {}
      invariant todo <= src.Keys
      invariant r == h + (src - excluded - todo)
      decreases |todo|
    {
      var hdr :| hdr in todo;
      CopyOne(h, src, excluded, todo, hdr);
      if hdr !in excluded {
        r := r[hdr := src[hdr]];
      }
      todo := todo - {hdr};
    }
    CopiedAll(h, src, excluded);
  }

  /** `mergeResponseHeaders` */
  method MergeResponseHeaders(h: Header, src: Header) returns (r: Header)
    ensures r == Merge(h, src)
  {
    r := CopyFields(h, src, HopByHop(src) + {"Content-Length"});
  }

  /** Merging is a pointwise overlay: a field of the 304 wins unless it is hop-by-hop there
      or Content-Length, and every other field is untouched. */
  lemma MergePointwise(h: Header, src: Header, f: string)
    ensures Values(Merge(h, src), f) ==
            if f in src && f !in HopByHop(src) && f != "Content-Length" then src[f] else Values(h, f)
    ensures f in Merge(h, src) <==> f in h || (f in src && f !in HopByHop(src) && f != "Content-Length")
  {
  }

  /** Merging twice is merging once, and two merges are one overlay of both updates. */
  lemma MergeLaws(h: Header, s1: Header, s2: Header)
    ensures Merge(Merge(h, s1), s1) == Merge(h, s1)
    ensures Merge(Merge(h, s1), s2) == h + (Update(s1) + Update(s2))
  {
  }

  /** A header that has no field of the fixed list, and therefore no Connection field, is
      kept whole by the removal. */
  lemma EndToEndFixpoint(h: Header)
    requires h.Keys !! FIXED_HOP
    ensures EndToEnd(h) == h
  {
    assert "Connection" in FIXED_HOP;
    assert Csv.Split("") == [];
  }

  lemma EndToEndClean(h: Header)
    ensures EndToEnd(h).Keys !! FIXED_HOP
    ensures Update(h).Keys !! FIXED_HOP
  {
  }

  // ----- Dates and conditional requests -----

  /** The parsed Date field; the zero time when there is none to parse. */
  function DateOf(lib: Library, h: Header): Time {
    match ParseDate(lib, Get(h, "Date"))
    case Some(t) => t
    case None => ZERO_TIME
  }

  /** `RawTime.Value` */
  function ParseDate(lib: Library, s: string): Option<Time> {
    if s == "" then None else lib.parseTime(s)
  }

  /** `FixDateHeader` */
  function FixDate(lib: Library, h: Header, receivedAt: Time): Header {
    if ParseDate(lib, Get(h, "Date")) in {None, Some(ZERO_TIME)}
    then Set(h, "Date", lib.formatTime(receivedAt))
    else h
  }

  /** `withConditionalHeaders` */
  function Conditional(req: Request, stored: Header): Request {
    var etag := Get(stored, "Etag");
    var h1 := if etag != "" then Set(req.header, "If-None-Match", etag) else req.header;
    var modified := Get(stored, "Last-Modified");
    var h2 := if modified != "" then Set(h1, "If-Modified-Since", modified) else h1;
    req.(header := h2)
  }

  /** Making a request conditional changes no field but the two preconditions. */
  lemma ConditionalKeeps(req: Request, stored: Header, f: string)
    requires f != "If-None-Match" && f != "If-Modified-Since"
    ensures Get(Conditional(req, stored).header, f) == Get(req.header, f)
    ensures Values(Conditional(req, stored).header, f) == Values(req.header, f)
  {
  }

  /** It carries the stored validators: If-None-Match the stored ETag, If-Modified-Since the
      stored Last-Modified, each in place of the client's own, and nothing where there is none;
      every other field is the client's. */
  lemma ConditionalCarries(req: Request, stored: Header)
    ensures var req' := Conditional(req, stored);
            && req'.verb == req.verb && req'.url == req.url
            && Values(req'.header, "If-None-Match") ==
                 (if Get(stored, "Etag") != "" then [Get(stored, "Etag")] else Values(req.header, "If-None-Match"))
            && Values(req'.header, "If-Modified-Since") ==
                 (if Get(stored, "Last-Modified") != "" then [Get(stored, "Last-Modified")]
                  else Values(req.header, "If-Modified-Since"))
            && forall f :: f != "If-None-Match" && f != "If-Modified-Since" ==>
                 Values(req'.header, f) == Values(req.header, f)
  {
    assert "If-None-Match"[3] != "If-Modified-Since"[3];
  }

  /** A 304 to the conditional request speaks of the stored reply for sure only when no
      precondition of the client's own is left in it: exactly when, for each of the two, the
      stored reply has the validator or the client sent no such field. */
  lemma OnlyStoredPreconditionsIff(req: Request, stored: Header)
    ensures var h := Conditional(req, stored).header;
            var etag, modified := Get(stored, "Etag"), Get(stored, "Last-Modified");
            Values(h, "If-None-Match") == (if etag != "" then [etag] else []) &&
            Values(h, "If-Modified-Since") == (if modified != "" then [modified] else [])
            <==> (etag != "" || Values(req.header, "If-None-Match") == []) &&
                 (modified != "" || Values(req.header, "If-Modified-Since") == [])
  {
    ConditionalCarries(req, stored);
  }

  /** A repaired header has a Date that parses and is not the zero time, as long as printed
      times parse; a good Date is left alone, so repairing twice is repairing once. */
  lemma FixDateValid(lib: Library, h: Header, receivedAt: Time)
    requires lib.formatTime(receivedAt) != ""
    requires lib.parseTime(lib.formatTime(receivedAt)).Some?
    requires lib.parseTime(lib.formatTime(receivedAt)).value != ZERO_TIME
    ensures var h' := FixDate(lib, h, receivedAt);
            && ParseDate(lib, Get(h', "Date")) == Some(DateOf(lib, h')) && DateOf(lib, h') != ZERO_TIME
            && FixDate(lib, h', receivedAt) == h'
            && (DateOf(lib, h) != ZERO_TIME ==> h' == h)
            && forall f :: f != "Date" ==> Values(h', f) == Values(h, f)
  {
  }

  // ----- Methods, origins, status codes -----

  /** A GET without a Range: the only requests the cache answers or stores for. */
  predicate IsUnderstood(req: Request) {
    req.verb == "GET" && Get(req.header, "Range") == ""
  }

  predicate IsUnsafe(verb: string) {
    verb in {"POST", "PUT", "DELETE", "PATCH"}
  }

  predicate IsNonError(status: int) {
    200 <= status < 400
  }

  function EffectivePort(u: URL): string {
    if u.port != "" then u.port
    else if u.scheme == "http" then "80"
    else if u.scheme == "https" then "443"
    else ""
  }

  predicate SameOrigin(a: URL, b: URL) {
    LowerCase(a.scheme) == LowerCase(b.scheme) &&
    LowerCase(a.hostname) == LowerCase(b.hostname) &&
    EffectivePort(a) == EffectivePort(b)
  }

  predicate StaleErrorAllowed(status: int) {
    status in {500, 502, 503, 504}
  }

  predicate StatusUnderstood(status: int) {
    status in {200, 203, 301, 304, 404, 405, 410, 414, 501, 308}
  }

  predicate HeuristicallyCacheable(status: int) {
    status in {200, 203, 206, 301, 304, 404, 405, 410, 414, 501, 308}
  }

  /** `canStoreResponse` (section 3 of RFC 9111, for a private cache). */
  predicate CanStore(resp: Reply, reqCC: CacheControl.Directives, resCC: CacheControl.Directives) {
    !(resp.status < 200 || resp.status == 102 || resp.status >= 600) &&
    !((resp.status == 206 || resp.status == 304 || CacheControl.MustUnderstand(resCC))
      && !StatusUnderstood(resp.status)) &&
    !(CacheControl.NoStore(resCC) || CacheControl.NoStore(reqCC)) &&
    (CacheControl.Public(resCC) || Get(resp.header, "Expires") != "" ||
     CacheControl.MaxAgePresent(resCC) || HeuristicallyCacheable(resp.status))
  }

  /** Same origin is an equivalence, and an absent port is the default one of the scheme. */
  lemma SameOriginLaws(a: URL, b: URL, c: URL, scheme: string, host: string, key: string, key': string)
    ensures SameOrigin(a, a)
    ensures SameOrigin(a, b) <==> SameOrigin(b, a)
    ensures SameOrigin(a, b) && SameOrigin(b, c) ==> SameOrigin(a, c)
    ensures SameOrigin(URL("http", host, "", key), URL("http", host, "80", key'))
    ensures SameOrigin(URL("https", host, "", key), URL("https", host, "443", key'))
    ensures !SameOrigin(URL(scheme, host, "80", key), URL(scheme, host, "8080", key'))
    ensures !SameOrigin(URL("http", host, "443", key), URL("https", host, "443", key'))
  {
    assert |"80"| != |"8080"|;
    assert |LowerCase("http")| != |LowerCase("https")|;
  }

  predicate SameLetter(a: char, b: char) {
    a == b || ('A' <= a <= 'Z' && b as int == a as int + 32) || ('A' <= b <= 'Z' && a as int == b as int + 32)
  }

  /** The texts agree at every position, but for the case of ASCII letters. */
  predicate SameButCase(s: string, t: string) {
    |s| == |t| && forall i :: 0 <= i < |s| ==> SameLetter(s[i], t[i])
  }

  lemma LowerCaseIff(s: string, t: string)
    ensures LowerCase(s) == LowerCase(t) <==> SameButCase(s, t)
  {
    if LowerCase(s) == LowerCase(t) {
      assert |s| == |LowerCase(s)| == |t|;
      forall i | 0 <= i < |s| ensures SameLetter(s[i], t[i]) {
        assert LowerCase(s)[i] == LowerCase(t)[i];
      }
    }
    if SameButCase(s, t) {
      forall i | 0 <= i < |s| ensures LowerCase(s)[i] == LowerCase(t)[i] {
        assert SameLetter(s[i], t[i]);
      }
    }
  }

  /** The port in use: the one given, or that of the two known schemes. */
  predicate Port(u: URL, port: string) {
    port == u.port != "" ||
    (u.port == "" && ((u.scheme == "http" && port == "80") || (u.scheme == "https" && port == "443") ||
                      (u.scheme !in {"http", "https"} && port == "")))
  }

  /** Two URLs have one origin if and only if schemes and hosts agree up to the case of their letters
      and the ports in use are the same. */
  lemma SameOriginIff(a: URL, b: URL)
    ensures SameOrigin(a, b) <==>
            SameButCase(a.scheme, b.scheme) && SameButCase(a.hostname, b.hostname) &&
            exists port :: Port(a, port) && Port(b, port)
  {
    LowerCaseIff(a.scheme, b.scheme);
    LowerCaseIff(a.hostname, b.hostname);
    assert |"http"| != |"https"|;
    assert Port(a, EffectivePort(a)) && Port(b, EffectivePort(b));
  }

  lemma LetterCases(a: char, b: char)
    ensures SameLetter(a, b) <==> ToUpper(a) == ToUpper(b)
    ensures SameLetter(a, b) <==> ToLower(a) == ToLower(b)
    ensures SameLetter(a, b) ==> (a == '-' <==> b == '-')
  {
  }

  /** Visible ASCII characters without the delimiters of section 5.6.2 of RFC 9110. */
  predicate IsFieldName(s: string) {
    forall i :: 0 <= i < |s| ==>
      '!' <= s[i] <= '~' &&
      s[i] !in {'"', '(', ')', ',', '/', ':', ';', '<', '=', '>', '?', '@', '[', '\\', ']', '{', '}'}
  }

  lemma FieldNameText(s: string)
    ensures IsTokenText(s) <==> IsFieldName(s)
  {
    forall i | 0 <= i < |s| ensures IsTokenChar(s[i]) <==>
      '!' <= s[i] <= '~' &&
      s[i] !in {'"', '(', ')', ',', '/', ':', ';', '<', '=', '>', '?', '@', '[', '\\', ']', '{', '}'}
    {
    }
  }

  /** Field names are compared without case: two have one canonical form if and only if they agree
      but for the case of letters. */
  lemma CanonicalKeyIff(s: string, t: string)
    requires IsFieldName(s) && IsFieldName(t)
    ensures CanonicalKey(s) == CanonicalKey(t) <==> SameButCase(s, t)
  {
    FieldNameText(s);
    FieldNameText(t);
    if CanonicalKey(s) == CanonicalKey(t) {
      CanonicalPositions(s, t, |s|);
    }
    if SameButCase(s, t) {
      CanonicalAgree(s, t);
    }
  }

  lemma CanonicalAgree(s: string, t: string)
    requires IsTokenText(s) && IsTokenText(t)
    requires SameButCase(s, t)
    ensures CanonicalKey(s) == CanonicalKey(t)
  {
    var u, v := CanonicalKey(s), CanonicalKey(t);
    forall i | 0 <= i < |s| ensures u[i] == v[i] {
      assert u[i] == CanonicalByte(s, i) && v[i] == CanonicalByte(t, i);
      assert SameLetter(s[i], t[i]);
      LetterCases(s[i], t[i]);
      if i > 0 {
        assert SameLetter(s[i - 1], t[i - 1]);
        LetterCases(s[i - 1], t[i - 1]);
      }
    }
  }

  lemma {:induction false} CanonicalPositions(s: string, t: string, n: nat)
    requires IsTokenText(s) && IsTokenText(t)
    requires CanonicalKey(s) == CanonicalKey(t) && n <= |s|
    ensures |s| == |t| && forall i :: 0 <= i < n ==> SameLetter(s[i], t[i])
  {
    assert |s| == |CanonicalKey(s)| == |t|;
    if n > 0 {
      CanonicalPositions(s, t, n - 1);
      assert CanonicalKey(s)[n - 1] == CanonicalByte(s, n - 1) && CanonicalKey(t)[n - 1] == CanonicalByte(t, n - 1);
      LetterCases(s[n - 1], t[n - 1]);
      if n > 1 {
        assert SameLetter(s[n - 2], t[n - 2]);
        LetterCases(s[n - 2], t[n - 2]);
      }
    }
  }

  /** Any other name is left alone. */
  lemma CanonicalKeyLeaves(s: string)
    requires !IsFieldName(s)
    ensures CanonicalKey(s) == s
  {
    FieldNameText(s);
  }

  /** Which replies are stored: no-store on either side always forbids it; a status the cache
      understands needs nothing else; 206 and non-final statuses never are; any other status
      needs an explicit indicator and no must-understand. */
  lemma CanStoreCases(resp: Reply, reqCC: CacheControl.Directives, resCC: CacheControl.Directives)
    ensures CanStore(resp, reqCC, resCC) ==>
              200 <= resp.status < 600 && resp.status != 206 &&
              !CacheControl.NoStore(resCC) && !CacheControl.NoStore(reqCC)
    ensures StatusUnderstood(resp.status) ==>
              (CanStore(resp, reqCC, resCC) <==> !CacheControl.NoStore(resCC) && !CacheControl.NoStore(reqCC))
    ensures 200 <= resp.status < 600 && !StatusUnderstood(resp.status) && resp.status != 206 ==>
              (CanStore(resp, reqCC, resCC) <==>
                 !CacheControl.NoStore(resCC) && !CacheControl.NoStore(reqCC) && !CacheControl.MustUnderstand(resCC) &&
                 (CacheControl.Public(resCC) || CacheControl.MaxAgePresent(resCC) || Get(resp.header, "Expires") != ""))
  {
  }

  /** Only the first Cache-Control line counts: whatever the later ones say, no-store included,
      the reply is admitted, and its directives are, as if they were not there. */
  lemma OnlyFirstLine(resp: Reply, reqCC: CacheControl.Directives, line: string, lines: seq<string>)
    ensures var one := resp.(header := resp.header["Cache-Control" := [line]]);
            var all := resp.(header := resp.header["Cache-Control" := [line] + lines]);
            DirectivesOf(all.header) == DirectivesOf(one.header) &&
            (CanStore(all, reqCC, DirectivesOf(all.header)) <==> CanStore(one, reqCC, DirectivesOf(one.header)))
  {
    assert |"Cache-Control"| != |"Expires"|;
  }

  /** An input: a no-store on the second line does not keep a 200 reply from being stored. */
  lemma LaterNoStoreIgnored(body: string)
    ensures var resp := Reply(200, map["Cache-Control" := ["public", "no-store"]], body);
            CanStore(resp, map[], DirectivesOf(resp.header))
  {
    CacheControl.ParseOne(CacheControl.Item("public", CacheControl.Absent));
    assert "public"[0] != "no-store"[0] && "public"[0] != "must-understand"[0];
  }
}
