/**
  Provenance, over every run and with any backend faults: what a stored entry holds, what
  its ref says about it, and which upstream exchanges both came from.
 */
module Provenance {
  import opened Base
  import opened Http
  import opened Protocol
  import Vary
  import CC = CacheControl

  // ----- What an entry may be -----

  /** The reply of an exchange as the cache took it: with its Date repaired. */
  function Received(lib: Library, ex: Exchange): Reply {
    TimedReply(lib, ex.reply, ex.end)
  }

  predicate Admitted(lib: Library, ex: Exchange) {
    CanStore(Received(lib, ex), DirectivesOf(ex.req.header), DirectivesOf(Received(lib, ex).header))
  }

  predicate Indexed(trace: seq<Exchange>, lineage: seq<nat>) {
    lineage != [] && forall i :: 0 <= i < |lineage| ==> lineage[i] < |trace|
  }

  /** What exchange `k` of the lineage gives: the end-to-end fields of the first reply, and
      of a later 304 what it updates. */
  function Contribution(lib: Library, trace: seq<Exchange>, lineage: seq<nat>, k: nat): Header
    requires Indexed(trace, lineage) && k < |lineage|
  {
    var h := Received(lib, trace[lineage[k]]).header;
    if k == 0 then EndToEnd(h) else Update(h)
  }

  function Contributions(lib: Library, trace: seq<Exchange>, lineage: seq<nat>): seq<Header>
    requires Indexed(trace, lineage)
  {
    seq(|lineage|, k requires 0 <= k < |lineage| => Contribution(lib, trace, lineage, k))
  }

  /** Headers laid over one another, the last on top. */
  function LayOver(hs: seq<Header>): Header {
    if hs == [] then map[] else LayOver(hs[..|hs| - 1]) + hs[|hs| - 1]
  }

  /** The first reply's fields overlaid in order by the updates of the 304s. */
  function Overlay(lib: Library, trace: seq<Exchange>, lineage: seq<nat>): Header
    requires Indexed(trace, lineage)
  {
    LayOver(Contributions(lib, trace, lineage))
  }

  /** One admitted reply, then only 304s, oldest first, all to Range-less GETs for `u`. Module
      `Origins` says when the first one is a 304 itself. */
  predicate Descent(lib: Library, trace: seq<Exchange>, lineage: seq<nat>, u: string) {
    Indexed(trace, lineage) &&
    Admitted(lib, trace[lineage[0]]) &&
    (forall i :: 0 <= i < |lineage| ==>
      IsUnderstood(trace[lineage[i]].req) && trace[lineage[i]].req.url.key == u) &&
    (forall i :: 0 < i < |lineage| ==> trace[lineage[i]].reply.status == 304) &&
    (forall i, j :: 0 <= i < j < |lineage| ==> lineage[i] < lineage[j])
  }

  /** The entry is what its lineage makes it, up to the two stamped status fields. */
  predicate Holds(lib: Library, trace: seq<Exchange>, e: Entry)
    requires Indexed(trace, e.lineage)
  {
    var origin := trace[e.lineage[0]].reply;
    e.data.status == origin.status && e.data.body == origin.body &&
    Bare(e.data.header) == Bare(Overlay(lib, trace, e.lineage)) &&
    e.data.header.Keys !! FIXED_HOP
  }

  /** The exchange whose request the entry was last written for. */
  function LastExchange(trace: seq<Exchange>, e: Entry): Exchange
    requires Indexed(trace, e.lineage)
  {
    trace[e.lineage[|e.lineage| - 1]]
  }

  /** The Vary fields of that request. */
  function ResolvedFor(lib: Library, trace: seq<Exchange>, e: Entry): map<string, string>
    requires Indexed(trace, e.lineage)
  {
    Vary.Resolve(lib, VaryOf(e.data.header), LastExchange(trace, e).req.header)
  }

  predicate EntryOk(lib: Library, trace: seq<Exchange>, e: Entry, u: string) {
    Descent(lib, trace, e.lineage, u) && Holds(lib, trace, e) &&
    e.id == Vary.VaryKey(lib, u, ResolvedFor(lib, trace, e)) &&
    e.requestedAt == LastExchange(trace, e).start && e.receivedAt == LastExchange(trace, e).end
  }

  /** The ref was made for a request to `u` and carries that request's Vary fields. */
  ghost predicate RefOk(lib: Library, trace: seq<Exchange>, r: Ref, u: string) {
    r.id == Vary.VaryKey(lib, u, r.resolved) &&
    exists i :: 0 <= i < |trace| && trace[i].req.url.key == u &&
                r.resolved == Vary.Resolve(lib, r.vary, trace[i].req.header)
  }

  ghost predicate BlobOk(lib: Library, trace: seq<Exchange>, k: string, b: Blob) {
    match b
    case Stored(e) => e.id == k && exists u :: '#' !in u && EntryOk(lib, trace, e, u)
    case Refs(refs) => '#' !in k && forall r :: r in refs ==> RefOk(lib, trace, r, k)
  }

  ghost predicate ConnOk(lib: Library, trace: seq<Exchange>, conn: Conn) {
    forall k :: k in conn ==> BlobOk(lib, trace, k, conn[k])
  }

  predicate JobOk(lib: Library, trace: seq<Exchange>, j: Job) {
    EntryOk(lib, trace, j.stored, j.req.url.key) && IsUnderstood(j.req) &&
    j.ccReq == DirectivesOf(j.req.header) && '#' !in j.req.url.key
  }

  ghost predicate WorldOk(lib: Library, w: World) {
    ConnOk(lib, w.trace, w.conn) && forall j :: j in w.pending ==> JobOk(lib, w.trace, j)
  }

  /** URL keys are free of '#': a normalized URL has no fragment. */
  predicate WellKeyed(step: Step) {
    step.Foreground? ==> '#' !in step.req.url.key
  }

  // ----- Extending the trace -----

  lemma OverlayExtends(lib: Library, trace: seq<Exchange>, trace': seq<Exchange>, lineage: seq<nat>)
    requires trace <= trace' && Indexed(trace, lineage)
    ensures Overlay(lib, trace', lineage) == Overlay(lib, trace, lineage)
  {
    assert Contributions(lib, trace', lineage) == Contributions(lib, trace, lineage);
  }

  lemma DescentKept(lib: Library, trace: seq<Exchange>, trace': seq<Exchange>, lineage: seq<nat>, u: string)
    requires trace <= trace' && Descent(lib, trace, lineage, u)
    ensures Descent(lib, trace', lineage, u)
  {
    assert forall i :: 0 <= i < |lineage| ==> trace'[lineage[i]] == trace[lineage[i]];
  }

  lemma HoldsKept(lib: Library, trace: seq<Exchange>, trace': seq<Exchange>, e: Entry)
    requires trace <= trace' && Indexed(trace, e.lineage) && Holds(lib, trace, e)
    ensures Holds(lib, trace', e) && LastExchange(trace', e) == LastExchange(trace, e)
  {
    OverlayExtends(lib, trace, trace', e.lineage);
  }

  lemma EntryExtends(lib: Library, trace: seq<Exchange>, trace': seq<Exchange>, e: Entry, u: string)
    requires trace <= trace' && EntryOk(lib, trace, e, u)
    ensures EntryOk(lib, trace', e, u)
  {
    DescentKept(lib, trace, trace', e.lineage, u);
    HoldsKept(lib, trace, trace', e);
  }

  lemma BlobExtends(lib: Library, trace: seq<Exchange>, trace': seq<Exchange>, k: string, b: Blob)
    requires trace <= trace' && BlobOk(lib, trace, k, b)
    ensures BlobOk(lib, trace', k, b)
  {
    match b
    case Stored(e) =>
      var u :| '#' !in u && EntryOk(lib, trace, e, u);
      EntryExtends(lib, trace, trace', e, u);
    case Refs(refs) =>
      forall r | r in refs ensures RefOk(lib, trace', r, k) {
        var i :| 0 <= i < |trace| && trace[i].req.url.key == k &&
                 r.resolved == Vary.Resolve(lib, r.vary, trace[i].req.header);
        assert trace'[i] == trace[i];
      }
  }

  // ----- The two kinds of write -----

  /** Storing the reply of the newest exchange. */
  lemma StoreOrigin(lib: Library, trace: seq<Exchange>, ex: Exchange, e: Entry)
    requires IsUnderstood(ex.req) && Admitted(lib, ex)
    requires StoreEffect(lib, ex.req, Received(lib, ex), [|trace|], [], 0, ex.start, ex.end).entry == e
    ensures EntryOk(lib, trace + [ex], e, ex.req.url.key)
  {
    OriginHolds(lib, trace, ex, e);
    assert (trace + [ex])[|trace|] == ex;
  }

  lemma OriginHolds(lib: Library, trace: seq<Exchange>, ex: Exchange, e: Entry)
    requires e.lineage == [|trace|]
    requires e.data == Received(lib, ex).(header := EndToEnd(Received(lib, ex).header))
    ensures Indexed(trace + [ex], e.lineage) && Holds(lib, trace + [ex], e)
  {
    EndToEndClean(Received(lib, ex).header);
    OverlayOne(lib, trace, ex);
    assert (trace + [ex])[|trace|] == ex;
  }

  /** A lineage of one lays down the end-to-end header of its reply. */
  lemma OverlayOne(lib: Library, trace: seq<Exchange>, ex: Exchange)
    ensures Indexed(trace + [ex], [|trace|])
    ensures Overlay(lib, trace + [ex], [|trace|]) == EndToEnd(Received(lib, ex).header)
  {
    var h := EndToEnd(Received(lib, ex).header);
    assert Contributions(lib, trace + [ex], [|trace|]) == [h];
    assert [h][..0] == [] && LayOver([h]) == h;
  }

  lemma BareMerge(h: Header, g: Header, src: Header)
    requires Bare(h) == Bare(g)
    ensures Bare(Merge(h, src)) == Bare(g + Update(src))
  {
    assert forall m: Header, n: Header :: Bare(m + n) == Bare(m) + Bare(n);
  }

  /** One more 304 to the same URL key continues a descent. */
  lemma DescentExtends(lib: Library, trace: seq<Exchange>, ex: Exchange, lineage: seq<nat>, u: string)
    requires Descent(lib, trace, lineage, u)
    requires IsUnderstood(ex.req) && ex.req.url.key == u && ex.reply.status == 304
    ensures Descent(lib, trace + [ex], lineage + [|trace|], u)
  {
    var trace', lineage' := trace + [ex], lineage + [|trace|];
    assert forall i :: 0 <= i < |lineage| ==> lineage'[i] == lineage[i] && trace'[lineage[i]] == trace[lineage[i]];
    assert trace'[lineage'[|lineage|]] == ex;
  }

  lemma OverlayFreshened(lib: Library, trace: seq<Exchange>, ex: Exchange, lineage: seq<nat>)
    requires Indexed(trace, lineage)
    ensures Indexed(trace + [ex], lineage + [|trace|])
    ensures Overlay(lib, trace + [ex], lineage + [|trace|]) == Overlay(lib, trace, lineage)
            + Update(Received(lib, ex).header)
  {
    var hs := Contributions(lib, trace + [ex], lineage + [|trace|]);
    assert hs[..|lineage|] == Contributions(lib, trace, lineage);
    assert hs[|lineage|] == Update(Received(lib, ex).header);
  }

  /** Storing an entry freshened by the newest exchange, a 304. */
  lemma StoreMerged(lib: Library, trace: seq<Exchange>, ex: Exchange, stored: Entry, merged: Reply, e: Entry)
    requires IsUnderstood(ex.req) && ex.reply.status == 304
    requires EntryOk(lib, trace, stored, ex.req.url.key)
    requires merged == stored.data.(header := Merge(stored.data.header, Received(lib, ex).header))
    requires StoreEffect(lib, ex.req, merged, stored.lineage + [|trace|], [], 0, ex.start, ex.end).entry == e
    ensures EntryOk(lib, trace + [ex], e, ex.req.url.key)
    ensures e.data == merged
  {
    DescentExtends(lib, trace, ex, stored.lineage, ex.req.url.key);
    MergeKeepsClean(stored.data.header, Received(lib, ex).header);
    MergedHolds(lib, trace, ex, stored, e);
  }

  lemma MergeKeepsClean(h: Header, src: Header)
    requires h.Keys !! FIXED_HOP
    ensures Merge(h, src).Keys !! FIXED_HOP && EndToEnd(Merge(h, src)) == Merge(h, src)
  {
    EndToEndClean(src);
    EndToEndFixpoint(Merge(h, src));
  }

  lemma MergedHolds(lib: Library, trace: seq<Exchange>, ex: Exchange, stored: Entry, e: Entry)
    requires Indexed(trace, stored.lineage) && Holds(lib, trace, stored)
    requires e.lineage == stored.lineage + [|trace|]
    requires e.data == stored.data.(header := Merge(stored.data.header, Received(lib, ex).header))
    ensures Holds(lib, trace + [ex], e)
  {
    var src := Received(lib, ex).header;
    MergeKeepsClean(stored.data.header, src);
    OverlayFreshened(lib, trace, ex, stored.lineage);
    BareMerge(stored.data.header, Overlay(lib, trace, stored.lineage), src);
    assert (trace + [ex])[e.lineage[0]] == trace[stored.lineage[0]];
  }

  /** The ref list a store writes, when the refs it starts from are good. */
  lemma StoreRefs(lib: Library, trace: seq<Exchange>, ex: Exchange, resp: Reply, lineage: seq<nat>, refs: seq<Ref>,
                  index: int)
    requires '#' !in ex.req.url.key
    requires forall r :: r in refs ==> RefOk(lib, trace, r, ex.req.url.key)
    ensures var eff := StoreEffect(lib, ex.req, resp, lineage, refs, index, ex.start, ex.end);
            BlobOk(lib, trace + [ex], eff.key, Refs(eff.refs))
  {
    var trace' := trace + [ex];
    var u := ex.req.url.key;
    var eff := StoreEffect(lib, ex.req, resp, lineage, refs, index, ex.start, ex.end);
    BlobExtends(lib, trace, trace', u, Refs(refs));
    forall r | r in eff.refs ensures RefOk(lib, trace', r, u) {
      if r !in refs {
        assert trace'[|trace|] == ex;
        assert r.resolved == Vary.Resolve(lib, r.vary, ex.req.header);
      }
    }
  }

  // ----- What every verdict keeps -----

  ghost predicate EffectOk(lib: Library, trace: seq<Exchange>, eff: Effect) {
    eff.Store? ==> EntryOk(lib, trace, eff.entry, eff.key) && BlobOk(lib, trace, eff.key, Refs(eff.refs))
  }

  ghost predicate VerdictOk(lib: Library, trace: seq<Exchange>, v: Verdict) {
    EffectOk(lib, trace + Listed(v.exchange), v.effect) &&
    (v.job.Some? ==> JobOk(lib, trace + Listed(v.exchange), v.job.value))
  }

  /** A step leaves each key as it was or as the effect writes it. */
  lemma AppliedKey(conn: Conn, eff: Effect, faults: Faults, k: string)
    requires k in Apply(conn, eff, faults)
    ensures var b := Apply(conn, eff, faults)[k];
            || (k in conn && b == conn[k])
            || (eff.Store? && k == eff.entry.id && b == Stored(eff.entry))
            || (eff.Store? && k == eff.key && b == Refs(eff.refs))
  {
  }

  lemma ApplyOk(lib: Library, trace: seq<Exchange>, trace': seq<Exchange>, conn: Conn, eff: Effect, faults: Faults)
    requires trace <= trace' && ConnOk(lib, trace, conn) && EffectOk(lib, trace', eff)
    ensures ConnOk(lib, trace', Apply(conn, eff, faults))
  {
    forall k | k in Apply(conn, eff, faults) ensures BlobOk(lib, trace', k, Apply(conn, eff, faults)[k]) {
      AppliedKey(conn, eff, faults, k);
      if k in conn && Apply(conn, eff, faults)[k] == conn[k] {
        BlobExtends(lib, trace, trace', k, conn[k]);
      }
    }
  }

  /** The reply a validation writes, if it writes, and its lineage. */
  function Written(lib: Library, number: nat, req: Request, stored: Entry, reply: Reply,
                   clock: Freshness.Clock): (Reply, seq<nat>) {
    var resp := TimedReply(lib, reply, clock.end);
    if req.verb == "GET" && resp.status == 304 then (Freshened(stored, resp), stored.lineage + [number])
    else (resp, [number])
  }

  /** The effect of a validation, by what upstream answered. */
  lemma ValidationCases(lib: Library, conn: Conn, number: nat, req: Request, stored: Entry, f: Freshness.Freshness,
                        ccReq: CC.Directives, refs: seq<Ref>, index: int, resp: Reply, clock: Freshness.Clock,
                        faults: Faults)
    ensures var eff := Validation(lib, conn, number, req, stored, f, ccReq, refs, index, resp, clock, faults).1;
            if req.verb == "GET" && resp.status == 304
            then eff == StoreEffect(lib, req, Freshened(stored, resp), stored.lineage + [number], refs, index,
                                    clock.start, clock.end)
            else
              || eff.Keep? || (eff.Erase? && IsUnsafe(req.verb))
              || eff == StoreEffect(lib, req, resp, [number], refs, index, clock.start, clock.end)
  {
    var s := Ending(req, stored, f, ccReq, resp, clock).1;
    assert s.REVALIDATED? <==> req.verb == "GET" && resp.status == 304;
  }

  /** A validation keeps the store, deletes for an unsafe method, or stores one of two things. */
  lemma ValidationEffect(lib: Library, conn: Conn, number: nat, req: Request, stored: Entry, f: Freshness.Freshness,
                         ccReq: CC.Directives, refs: seq<Ref>, index: int, upstream: Option<Reply>,
                         clock: Freshness.Clock, faults: Faults)
    ensures var eff := Revalidated(lib, conn, number, req, stored, f, ccReq, refs, index, upstream, clock,
                                   faults).effect;
            && (eff.Erase? ==> IsUnsafe(req.verb))
            && (eff.Store? ==>
                  upstream.Some? &&
                  var (data, lineage) := Written(lib, number, req, stored, upstream.value, clock);
                  eff == StoreEffect(lib, req, data, lineage, refs, index, clock.start, clock.end))
  {
    if upstream.Some? {
      ValidationCases(lib, conn, number, req, stored, f, ccReq, refs, index, TimedReply(lib, upstream.value, clock.end),
                      clock, faults);
    }
  }

  lemma MissOk(lib: Library, trace: seq<Exchange>, req: Request, refs: seq<Ref>, index: int, upstream: Option<Reply>,
               clock: Freshness.Clock)
    requires IsUnderstood(req) && '#' !in req.url.key
    requires forall r :: r in refs ==> RefOk(lib, trace, r, req.url.key)
    ensures VerdictOk(lib, trace, Miss(lib, |trace|, req, refs, index, upstream, clock))
  {
    var v := Miss(lib, |trace|, req, refs, index, upstream, clock);
    if v.effect.Store? {
      var ex := v.exchange.value;
      StoreOrigin(lib, trace, ex, v.effect.entry);
      StoreRefs(lib, trace, ex, Received(lib, ex), [|trace|], refs, index);
    }
  }

  /** Whichever of the two things a validation writes, it writes them rightly. */
  lemma WrittenOk(lib: Library, trace: seq<Exchange>, ex: Exchange, stored: Entry, refs: seq<Ref>, index: int,
                  clock: Freshness.Clock)
    requires IsUnderstood(ex.req) && '#' !in ex.req.url.key && ex.start == clock.start && ex.end == clock.end
    requires EntryOk(lib, trace, stored, ex.req.url.key)
    requires forall r :: r in refs ==> RefOk(lib, trace, r, ex.req.url.key)
    requires ex.reply.status != 304 ==> Admitted(lib, ex)
    ensures var (data, lineage) := Written(lib, |trace|, ex.req, stored, ex.reply, clock);
            EffectOk(lib, trace + [ex], StoreEffect(lib, ex.req, data, lineage, refs, index, ex.start, ex.end))
  {
    var (data, lineage) := Written(lib, |trace|, ex.req, stored, ex.reply, clock);
    var e := StoreEffect(lib, ex.req, data, lineage, refs, index, ex.start, ex.end).entry;
    StoreRefs(lib, trace, ex, data, lineage, refs, index);
    if ex.reply.status == 304 {
      StoreMerged(lib, trace, ex, stored, data, e);
    } else {
      StoreOrigin(lib, trace, ex, e);
    }
  }

  /** A validation that writes had a reply, and no 304 only when that was admitted. */
  lemma WritesAdmitted(lib: Library, conn: Conn, number: nat, req: Request, stored: Entry, f: Freshness.Freshness,
                       ccReq: CC.Directives, refs: seq<Ref>, index: int, upstream: Option<Reply>,
                       clock: Freshness.Clock, faults: Faults)
    requires ccReq == DirectivesOf(req.header) && req.verb == "GET"
    ensures var v := Revalidated(lib, conn, number, req, stored, f, ccReq, refs, index, upstream, clock, faults);
            && v.job.None?
            && (v.effect.Store? ==>
                  && upstream.Some? && v.exchange == Some(Exchange(req, upstream.value, clock.start, clock.end))
                  && (upstream.value.status != 304 ==> Admitted(lib, v.exchange.value)))
  {
  }

  /** Revalidation, foreground (the request's refs) or background (none). */
  lemma RevalidatedOk(lib: Library, trace: seq<Exchange>, conn: Conn, req: Request, stored: Entry,
                      f: Freshness.Freshness,
                      ccReq: CC.Directives, refs: seq<Ref>, index: int, upstream: Option<Reply>, clock: Freshness.Clock,
                      faults: Faults)
    requires IsUnderstood(req) && '#' !in req.url.key && ccReq == DirectivesOf(req.header)
    requires EntryOk(lib, trace, stored, req.url.key)
    requires forall r :: r in refs ==> RefOk(lib, trace, r, req.url.key)
    ensures VerdictOk(lib, trace, Revalidated(lib, conn, |trace|, req, stored, f, ccReq, refs, index, upstream, clock,
                                              faults))
  {
    ValidationEffect(lib, conn, |trace|, req, stored, f, ccReq, refs, index, upstream, clock, faults);
    WritesAdmitted(lib, conn, |trace|, req, stored, f, ccReq, refs, index, upstream, clock, faults);
    if Revalidated(lib, conn, |trace|, req, stored, f, ccReq, refs, index, upstream, clock, faults).effect.Store? {
      WrittenOk(lib, trace, Exchange(req, upstream.value, clock.start, clock.end), stored, refs, index, clock);
    }
  }

  lemma ConditionalOk(req: Request, stored: Header)
    ensures var req' := Conditional(req, stored);
            req'.url == req.url && req'.verb == req.verb &&
            (IsUnderstood(req) ==> IsUnderstood(req')) &&
            DirectivesOf(req'.header) == DirectivesOf(req.header)
  {
    ConditionalKeeps(req, stored, "Range");
    assert "Cache-Control"[0] != "If-None-Match"[0] && "Cache-Control"[0] != "If-Modified-Since"[0];
    ConditionalKeeps(req, stored, "Cache-Control");
  }

  /** Stamping a header as stale changes nothing provenance speaks about. */
  lemma StampedOk(lib: Library, trace: seq<Exchange>, e: Entry, u: string, s: CacheStatus)
    requires EntryOk(lib, trace, e, u)
    ensures EntryOk(lib, trace, e.(data := Stamped(e.data, s)), u)
  {
    StampKeepsClean(e.data.header, s);
    SameData(lib, trace, e, Stamped(e.data, s), u);
  }

  /** Provenance sees of the data only status, body, the Vary list and the bare header. */
  lemma SameData(lib: Library, trace: seq<Exchange>, e: Entry, data: Reply, u: string)
    requires EntryOk(lib, trace, e, u)
    requires data.status == e.data.status && data.body == e.data.body
    requires Bare(data.header) == Bare(e.data.header) && data.header.Keys !! FIXED_HOP
    requires VaryOf(data.header) == VaryOf(e.data.header)
    ensures EntryOk(lib, trace, e.(data := data), u)
  {
  }

  lemma StampKeepsClean(h: Header, s: CacheStatus)
    requires h.Keys !! FIXED_HOP
    ensures Stamp(h, s).Keys !! FIXED_HOP
    ensures Bare(Stamp(h, s)) == Bare(h)
    ensures VaryOf(Stamp(h, s)) == VaryOf(h)
  {
    assert "Vary"[0] != STATUS[0] && "Vary"[0] != FROM_CACHE[0];
    forall k | k in FIXED_HOP ensures k != STATUS && k != FROM_CACHE {
      assert k[0] != 'X';
    }
  }

  /** A lookup for `req` finds only refs and an entry of the request's own URL key. */
  ghost predicate LookupOk(lib: Library, trace: seq<Exchange>, req: Request, l: Lookup) {
    (!l.Nothing? ==> forall r :: r in l.refs ==> RefOk(lib, trace, r, req.url.key)) &&
    (l.Found? || l.Unreadable? ==>
      l.index < |l.refs| && Vary.Matches(lib, l.refs[l.index], req.header)) &&
    (l.Found? ==>
      && l.refs[l.index].id == l.entry.id
      && EntryOk(lib, trace, l.entry, req.url.key))
  }

  lemma FindOk(lib: Library, w: World, req: Request, faults: Faults)
    requires WorldOk(lib, w) && Vary.PermutesRefs(lib) && '#' !in req.url.key
    ensures LookupOk(lib, w.trace, req, Find(lib, w.conn, req, faults))
  {
    var l := Find(lib, w.conn, req, faults);
    if !l.Nothing? {
      var u := req.url.key;
      var refs := w.conn[u].refs;
      assert BlobOk(lib, w.trace, u, w.conn[u]);
      Vary.SamePermutation(refs, l.refs);
      if l.Found? {
        var r := l.refs[l.index];
        assert r in l.refs;
        assert BlobOk(lib, w.trace, r.id, w.conn[r.id]);
        var u' :| '#' !in u' && EntryOk(lib, w.trace, l.entry, u');
        Vary.VaryKeyInjective(lib, u, r.resolved, u', ResolvedFor(lib, w.trace, l.entry));
      }
    }
  }

  lemma StaleAndJobOk(lib: Library, trace: seq<Exchange>, req: Request, stored: Entry, f: Freshness.Freshness)
    requires IsUnderstood(req) && '#' !in req.url.key
    requires EntryOk(lib, trace, stored, req.url.key)
    ensures VerdictOk(lib, trace, StaleAndJob(req, stored, f, DirectivesOf(req.header)))
  {
    ConditionalOk(req, stored.data.header);
    StampedOk(lib, trace, stored, req.url.key, STALE);
    assert trace + Listed<Exchange>(None) == trace;
  }

  lemma HitOk(lib: Library, trace: seq<Exchange>, conn: Conn, req: Request, stored: Entry, refs: seq<Ref>, index: int,
              upstream: Option<Reply>, clock: Freshness.Clock, faults: Faults)
    requires IsUnderstood(req) && '#' !in req.url.key
    requires EntryOk(lib, trace, stored, req.url.key)
    requires forall r :: r in refs ==> RefOk(lib, trace, r, req.url.key)
    ensures VerdictOk(lib, trace, Hit(lib, conn, |trace|, req, stored, refs, index, upstream, clock, faults))
  {
    var ccReq := DirectivesOf(req.header);
    var ccResp := DirectivesOf(stored.data.header);
    var f := Freshness.Calculate(lib, stored, ccReq, ccResp, clock);
    ConditionalOk(req, stored.data.header);
    match RouteOf(f, ccReq, ccResp, clock.swr)
    case ServeHit =>
    case ServeStale =>
      StaleAndJobOk(lib, trace, req, stored, f);
    case Revalidate =>
      RevalidatedOk(lib, trace, conn, Conditional(req, stored.data.header), stored, f, ccReq, refs, index, upstream,
                    clock, faults);
  }

  lemma DispatchOk(lib: Library, trace: seq<Exchange>, conn: Conn, req: Request, l: Lookup,
                   upstream: Option<Reply>, clock: Freshness.Clock, faults: Faults)
    requires IsUnderstood(req) && '#' !in req.url.key && LookupOk(lib, trace, req, l)
    ensures VerdictOk(lib, trace, Dispatch(lib, conn, |trace|, req, l, upstream, clock, faults))
  {
    if l.Found? {
      HitOk(lib, trace, conn, req, l.entry, l.refs, l.index, upstream, clock, faults);
    } else {
      MissOk(lib, trace, req, RefsOf(l), IndexOf(l), upstream, clock);
    }
  }

  lemma StepOk(lib: Library, w: World, step: Step)
    requires WorldOk(lib, w) && Vary.PermutesRefs(lib) && WellKeyed(step)
    requires step.Background? ==> step.job < |w.pending|
    ensures VerdictOk(lib, w.trace, VerdictOf(lib, w, step))
  {
    match step
    case Background(job, upstream, clock, faults) =>
      var j := w.pending[job];
      assert j in w.pending;
      RevalidatedOk(lib, w.trace, w.conn, j.req, j.stored, j.freshness, j.ccReq, [], 0, upstream, clock, faults);
    case Foreground(req, upstream, clock, faults) =>
      if IsUnderstood(req) {
        FindOk(lib, w, req, faults);
        DispatchOk(lib, w.trace, w.conn, req, Find(lib, w.conn, req, faults), upstream, clock, faults);
      } else {
        var v := Unrecognized(lib, w.conn, req, upstream, clock, faults);
        assert !v.effect.Store? && v.job.None?;
      }
  }

  lemma NextOk(lib: Library, w: World, step: Step)
    requires WorldOk(lib, w) && Vary.PermutesRefs(lib) && WellKeyed(step)
    ensures WorldOk(lib, Next(lib, w, step))
    ensures w.trace <= Next(lib, w, step).trace
  {
    if step.Foreground? || step.job < |w.pending| {
      StepOk(lib, w, step);
      var v := VerdictOf(lib, w, step);
      var w' := Next(lib, w, step);
      ApplyOk(lib, w.trace, w'.trace, w.conn, v.effect, step.faults);
      forall j | j in w'.pending ensures JobOk(lib, w'.trace, j) {
        if j in w.pending {
          EntryExtends(lib, w.trace, w'.trace, j.stored, j.req.url.key);
        }
      }
    }
  }

  /** Provenance: in every run from the empty cache, whatever the backend does, every stored
      entry, every ref and every pending job descends from the upstream exchanges as above. */
  lemma {:induction false} RunOk(lib: Library, steps: seq<Step>)
    requires Vary.PermutesRefs(lib)
    requires forall i :: 0 <= i < |steps| ==> WellKeyed(steps[i])
    ensures WorldOk(lib, Run(lib, INIT, steps))
    decreases |steps|
  {
    if steps != [] {
      var n := |steps| - 1;
      RunOk(lib, steps[..n]);
      NextOk(lib, Run(lib, INIT, steps[..n]), steps[n]);
    }
  }
}
