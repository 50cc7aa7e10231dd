/**
  What selection and freshening mean for a stored response: the requests behind a selected
  entry agree with the new request on the nominated fields, and each stored field is the
  one the latest reply gave.
 */
module Agreement {
  import opened Base
  import opened Http
  import opened Protocol
  import opened Provenance
  import Csv
  import Freshness
  import CC = CacheControl
  import Vary

  // ----- Vary agreement -----

  lemma {:induction false} DecimalInjective(m: nat, n: nat)
    requires Decimal(m) == Decimal(n)
    ensures m == n
  {
    var s, t := Decimal(m), Decimal(n);
    assert s[|s| - 1] == ('0' as int + m % 10) as char && t[|t| - 1] == ('0' as int + n % 10) as char;
    assert m % 10 == n % 10;
    if m >= 10 && n >= 10 {
      assert s[..|s| - 1] == Decimal(m / 10) && t[..|t| - 1] == Decimal(n / 10);
      DecimalInjective(m / 10, n / 10);
    }
  }

  /** The hash tells these two maps apart, and neither is a non-empty map that hashes to the
      0 reserved for the empty one. */
  predicate NoCollision(lib: Library, m: map<string, string>, n: map<string, string>) {
    (m != map[] ==> lib.varyHash(m) != 0) && (n != map[] ==> lib.varyHash(n) != 0) &&
    (lib.varyHash(m) == lib.varyHash(n) ==> m == n)
  }

  lemma SameKeySameMap(lib: Library, u: string, m: map<string, string>, n: map<string, string>)
    requires NoCollision(lib, m, n) && Vary.VaryKey(lib, u, m) == Vary.VaryKey(lib, u, n)
    ensures m == n
  {
    var h := (x: map<string, string>) => if x == map[] then 0 else lib.varyHash(x);
    assert Decimal(0) == "0";
    var a, b := Vary.VaryKey(lib, u, m), Vary.VaryKey(lib, u, n);
    assert a == u + "#" + Decimal(h(m)) && b == u + "#" + Decimal(h(n));
    assert a[|u| + 1..] == Decimal(h(m)) && b[|u| + 1..] == Decimal(h(n));
    DecimalInjective(h(m), h(n));
  }

  /** Some exchange of the run for the same URL key carried the same Vary fields. */
  ghost predicate AgreesWithSome(lib: Library, trace: seq<Exchange>, req: Request, vary: string) {
    exists i :: 0 <= i < |trace| && trace[i].req.url.key == req.url.key &&
      forall f :: f in Vary.Nominated(vary) ==>
        Vary.Normalized(lib, req.header, f) == Vary.Normalized(lib, trace[i].req.header, f)
  }

  /** In every run, a selected ref was made for a request to the same URL key that agrees with
      the new one, after normalization, on every field the ref's Vary nominates. */
  lemma SelectedRefAgrees(lib: Library, steps: seq<Step>, req: Request, faults: Faults)
    requires Vary.PermutesRefs(lib) && '#' !in req.url.key
    requires forall i :: 0 <= i < |steps| ==> WellKeyed(steps[i])
    ensures var w := Run(lib, INIT, steps);
            var l := Find(lib, w.conn, req, faults);
            l.Found? || l.Unreadable? ==>
              l.index < |l.refs| && l.refs[l.index].vary != "*" &&
                AgreesWithSome(lib, w.trace, req, l.refs[l.index].vary)
  {
    var w := Run(lib, INIT, steps);
    RunOk(lib, steps);
    FindOk(lib, w, req, faults);
    LookupAgrees(lib, w.trace, req, Find(lib, w.conn, req, faults));
  }

  lemma LookupAgrees(lib: Library, trace: seq<Exchange>, req: Request, l: Lookup)
    requires LookupOk(lib, trace, req, l)
    ensures l.Found? || l.Unreadable? ==>
              l.index < |l.refs| && l.refs[l.index].vary != "*" && AgreesWithSome(lib, trace, req, l.refs[l.index].vary)
  {
    if l.Found? || l.Unreadable? {
      assert l.refs[l.index] in l.refs;
      MatchedRefAgrees(lib, trace, l.refs[l.index], req);
    }
  }

  lemma MatchedRefAgrees(lib: Library, trace: seq<Exchange>, r: Ref, req: Request)
    requires RefOk(lib, trace, r, req.url.key) && Vary.Matches(lib, r, req.header)
    ensures AgreesWithSome(lib, trace, req, r.vary)
  {
    var i :| 0 <= i < |trace| && trace[i].req.url.key == req.url.key &&
             r.resolved == Vary.Resolve(lib, r.vary, trace[i].req.header);
    Vary.MatchMeansAgreement(lib, r, trace[i].req.header, req.header);
  }

  /** Unless two maps in use collide, the entry read was itself last written for such a
      request: both agree on every field the entry's own Vary nominates. */
  lemma SelectedEntryAgrees(lib: Library, steps: seq<Step>, req: Request, faults: Faults)
    requires Vary.PermutesRefs(lib) && '#' !in req.url.key
    requires forall i :: 0 <= i < |steps| ==> WellKeyed(steps[i])
    ensures var w := Run(lib, INIT, steps);
            var l := Find(lib, w.conn, req, faults);
            l.Found? ==>
              l.index < |l.refs| && Indexed(w.trace, l.entry.lineage) &&
              (NoCollision(lib, l.refs[l.index].resolved, ResolvedFor(lib, w.trace, l.entry)) ==>
                forall f :: f in Vary.Nominated(VaryOf(l.entry.data.header)) ==>
                  Vary.Normalized(lib, req.header, f)
                  == Vary.Normalized(lib, LastExchange(w.trace, l.entry).req.header, f))
  {
    var w := Run(lib, INIT, steps);
    RunOk(lib, steps);
    FindOk(lib, w, req, faults);
    EntryAgrees(lib, w.trace, req, Find(lib, w.conn, req, faults));
  }

  lemma EntryAgrees(lib: Library, trace: seq<Exchange>, req: Request, l: Lookup)
    requires LookupOk(lib, trace, req, l)
    ensures l.Found? ==>
              l.index < |l.refs| && Indexed(trace, l.entry.lineage) &&
              (NoCollision(lib, l.refs[l.index].resolved, ResolvedFor(lib, trace, l.entry)) ==>
                forall f :: f in Vary.Nominated(VaryOf(l.entry.data.header)) ==>
                  Vary.Normalized(lib, req.header, f)
                  == Vary.Normalized(lib, LastExchange(trace, l.entry).req.header, f))
  {
    if l.Found? {
      var r := l.refs[l.index];
      var m := ResolvedFor(lib, trace, l.entry);
      assert r in l.refs;
      if NoCollision(lib, r.resolved, m) {
        SameKeySameMap(lib, req.url.key, r.resolved, m);
        forall f | f in Vary.Nominated(VaryOf(l.entry.data.header))
          ensures Vary.Normalized(lib, req.header, f) ==
                  Vary.Normalized(lib, LastExchange(trace, l.entry).req.header, f)
        {
          assert f in m && f in r.resolved;
        }
      }
    }
  }

  /** The same on the lines themselves: the request and the one the entry was last written for have
      the same normal form, of the first line or of none, in every field that any element of any
      of the entry's Vary lines names. */
  lemma SelectedEntryAgreesOnLines(lib: Library, steps: seq<Step>, req: Request, faults: Faults, line: string,
                                   part: string)
    requires Vary.PermutesRefs(lib) && '#' !in req.url.key
    requires forall i :: 0 <= i < |steps| ==> WellKeyed(steps[i])
    requires var l := Find(lib, Run(lib, INIT, steps).conn, req, faults);
             l.Found? && line in Values(l.entry.data.header, "Vary") && part in Csv.Split(line) &&
             forall other :: other in Values(l.entry.data.header, "Vary") ==> Csv.Closed(other)
    ensures var w := Run(lib, INIT, steps);
            var l := Find(lib, w.conn, req, faults);
            l.index < |l.refs| && Indexed(w.trace, l.entry.lineage) &&
            (NoCollision(lib, l.refs[l.index].resolved, ResolvedFor(lib, w.trace, l.entry)) ==>
               SameForm(lib, CanonicalKey(part), req.header, LastExchange(w.trace, l.entry).req.header))
  {
    SelectedEntryAgrees(lib, steps, req, faults);
    var l := Find(lib, Run(lib, INIT, steps).conn, req, faults);
    Vary.NominatedByLines(l.entry.data.header, CanonicalKey(part));
  }

  /** The two headers agree on the field: it is absent in one exactly as if it were empty, and
      otherwise its first lines count, in normal form. */
  predicate SameForm(lib: Library, field: string, g: Header, h: Header) {
    (if field in g && g[field] != [] then lib.normalizeValue(field, g[field][0]) else "")
    == (if field in h && h[field] != [] then lib.normalizeValue(field, h[field][0]) else "")
  }

  /** Repeating the request an exchange sent finds a match on the list it was stored on,
      unless the stored Vary is exactly "*". */
  lemma StoredRequestMatches(lib: Library, req: Request, resp: Reply, lineage: seq<nat>, refs: seq<Ref>, index: int,
                             start: Time, end: Time)
    requires Vary.PermutesRefs(lib)
    ensures var eff := StoreEffect(lib, req, resp, lineage, refs, index, start, end);
            var sorted := lib.sortRefs(eff.refs);
            VaryOf(eff.entry.data.header) != "*" ==> Vary.FirstMatch(lib, sorted, req.header) < |sorted|
  {
    var eff := StoreEffect(lib, req, resp, lineage, refs, index, start, end);
    var at := if 0 <= index < |refs| then index else |refs|;
    var r := eff.refs[at];
    var sorted := lib.sortRefs(eff.refs);
    Vary.SamePermutation(eff.refs, sorted);
    assert r in sorted;
    Vary.MatchMeansAgreement(lib, r, req.header, req.header);
  }

  // ----- Where a stored field comes from -----

  /** The header of exchange number `k` of the lineage, as the cache took it. */
  function HeaderAt(lib: Library, trace: seq<Exchange>, lineage: seq<nat>, k: nat): Header
    requires Indexed(trace, lineage) && k < |lineage|
  {
    Received(lib, trace[lineage[k]]).header
  }

  /** That exchange gives the field to the entry: the field is end-to-end in its reply, and not
      the Content-Length of a later 304. */
  predicate Gives(lib: Library, trace: seq<Exchange>, lineage: seq<nat>, k: nat, f: string)
    requires Indexed(trace, lineage) && k < |lineage|
  {
    var h := HeaderAt(lib, trace, lineage, k);
    f in h && f !in HopByHop(h) && (k > 0 ==> f != "Content-Length")
  }

  /** What it gives is the reply's own lines. */
  lemma GivesWhat(lib: Library, trace: seq<Exchange>, lineage: seq<nat>, k: nat, f: string)
    requires Indexed(trace, lineage) && k < |lineage|
    ensures Gives(lib, trace, lineage, k, f) <==> f in Contribution(lib, trace, lineage, k)
    ensures Gives(lib, trace, lineage, k, f) ==>
              Contribution(lib, trace, lineage, k)[f] == HeaderAt(lib, trace, lineage, k)[f]
  {
  }

  predicate GivesLast(lib: Library, trace: seq<Exchange>, lineage: seq<nat>, k: nat, f: string)
    requires Indexed(trace, lineage) && k < |lineage|
  {
    Gives(lib, trace, lineage, k, f) && forall j :: k < j < |lineage| ==> !Gives(lib, trace, lineage, j, f)
  }

  predicate NoneGives(lib: Library, trace: seq<Exchange>, lineage: seq<nat>, f: string)
    requires Indexed(trace, lineage)
  {
    forall k :: 0 <= k < |lineage| ==> !Gives(lib, trace, lineage, k, f)
  }

  /** In a stack of headers the topmost one that has the field decides. */
  lemma {:induction false} TopmostDecides(hs: seq<Header>, k: nat, f: string)
    requires k < |hs| && f in hs[k] && forall j :: k < j < |hs| ==> f !in hs[j]
    ensures f in LayOver(hs) && LayOver(hs)[f] == hs[k][f]
  {
    var n := |hs| - 1;
    if k < n {
      assert f !in hs[n];
      TopmostDecides(hs[..n], k, f);
    }
  }

  lemma {:induction false} NoneDecides(hs: seq<Header>, f: string)
    requires forall j :: 0 <= j < |hs| ==> f !in hs[j]
    ensures f !in LayOver(hs)
  {
    if hs != [] {
      assert f !in hs[|hs| - 1];
      NoneDecides(hs[..|hs| - 1], f);
    }
  }

  /** A field of the overlay has the lines of the latest exchange that gives it. */
  lemma OverlayLatest(lib: Library, trace: seq<Exchange>, lineage: seq<nat>, k: nat, f: string)
    requires Indexed(trace, lineage) && k < |lineage| && GivesLast(lib, trace, lineage, k, f)
    ensures f in Overlay(lib, trace, lineage)
    ensures Overlay(lib, trace, lineage)[f] == HeaderAt(lib, trace, lineage, k)[f]
  {
    var hs := Contributions(lib, trace, lineage);
    GivesWhat(lib, trace, lineage, k, f);
    forall j | k < j < |hs| ensures f !in hs[j] {
      GivesWhat(lib, trace, lineage, j, f);
    }
    TopmostDecides(hs, k, f);
  }

  /** A field no exchange gives is absent. */
  lemma OverlayAbsent(lib: Library, trace: seq<Exchange>, lineage: seq<nat>, f: string)
    requires Indexed(trace, lineage) && NoneGives(lib, trace, lineage, f)
    ensures f !in Overlay(lib, trace, lineage)
  {
    var hs := Contributions(lib, trace, lineage);
    forall j | 0 <= j < |hs| ensures f !in hs[j] {
      GivesWhat(lib, trace, lineage, j, f);
    }
    NoneDecides(hs, f);
  }

  lemma BareField(g: Header, h: Header, f: string)
    requires Bare(g) == Bare(h) && f != STATUS && f != FROM_CACHE
    ensures f in g <==> f in h
    ensures f in g ==> g[f] == h[f]
  {
    assert f in g <==> f in Bare(g);
    assert f in h <==> f in Bare(h);
  }

  /** In every run a stored field, status stamps aside, has the lines of the latest reply of
      the entry's lineage that gives it, and is absent when none does. */
  lemma StoredFieldLatest(lib: Library, steps: seq<Step>, id: string, f: string)
    requires Vary.PermutesRefs(lib)
    requires forall i :: 0 <= i < |steps| ==> WellKeyed(steps[i])
    requires f != STATUS && f != FROM_CACHE
    requires var w := Run(lib, INIT, steps);
             id in w.conn && w.conn[id].Stored?
    ensures var w := Run(lib, INIT, steps);
            var e := w.conn[id].entry;
            && Indexed(w.trace, e.lineage)
            && (forall k :: 0 <= k < |e.lineage| && GivesLast(lib, w.trace, e.lineage, k, f) ==>
                  f in e.data.header && e.data.header[f] == HeaderAt(lib, w.trace, e.lineage, k)[f])
            && (NoneGives(lib, w.trace, e.lineage, f) ==> f !in e.data.header)
  {
    var w := Run(lib, INIT, steps);
    RunOk(lib, steps);
    assert BlobOk(lib, w.trace, id, w.conn[id]);
    var e := w.conn[id].entry;
    BareField(e.data.header, Overlay(lib, w.trace, e.lineage), f);
    forall k | 0 <= k < |e.lineage| && GivesLast(lib, w.trace, e.lineage, k, f)
      ensures f in e.data.header && e.data.header[f] == HeaderAt(lib, w.trace, e.lineage, k)[f]
    {
      OverlayLatest(lib, w.trace, e.lineage, k, f);
    }
    if NoneGives(lib, w.trace, e.lineage, f) {
      OverlayAbsent(lib, w.trace, e.lineage, f);
    }
  }

  // ----- The ref list -----

  /** The ref of an entry: its ID, its Vary list and its Date. */
  predicate RefFor(lib: Library, r: Ref, e: Entry) {
    r.id == e.id && r.vary == VaryOf(e.data.header) && r.receivedAt == DateOf(lib, e.data.header)
  }

  lemma MultisetReplace<T>(s: seq<T>, i: nat, x: T)
    requires i < |s|
    ensures multiset(s[i := x]) == multiset(s) - multiset{s[i]} + multiset{x}
  {
  }

  /** What a store does to a list: the ref at the index goes, if there is one, and one ref for
      the written entry comes. */
  lemma StoreConserves(lib: Library, req: Request, resp: Reply, lineage: seq<nat>, refs: seq<Ref>, index: int,
                       start: Time, end: Time) returns (added: Ref)
    ensures var eff := StoreEffect(lib, req, resp, lineage, refs, index, start, end);
            RefFor(lib, added, eff.entry) &&
            multiset(eff.refs) ==
              multiset(refs) - (if 0 <= index < |refs| then multiset{refs[index]} else multiset{}) + multiset{added}
  {
    var eff := StoreEffect(lib, req, resp, lineage, refs, index, start, end);
    if 0 <= index < |refs| {
      added := eff.refs[index];
      MultisetReplace(refs, index, added);
    } else {
      added := eff.refs[|refs|];
      assert multiset(refs + [added]) == multiset(refs) + multiset{added};
    }
  }

  /** The ref a lookup selected, as a multiset. */
  function Selected(l: Lookup): multiset<Ref>
    requires l.Found? || l.Unreadable? ==> l.index < |l.refs|
  {
    if l.Found? || l.Unreadable? then multiset{l.refs[l.index]} else multiset{}
  }

  lemma LookupPermutes(lib: Library, conn: Conn, req: Request, faults: Faults)
    requires Vary.PermutesRefs(lib)
    ensures var l := Find(lib, conn, req, faults);
            (l.Found? || l.Unreadable? ==> l.index < |l.refs|) &&
            multiset(RefsOf(l)) == multiset(RefsOrNil(conn, req.url.key, faults))
  {
  }

  /** The list of the effect is `refs` with the ref at the index out and `added` in. */
  predicate Exchanges(lib: Library, eff: Effect, u: string, refs: seq<Ref>, index: int, added: Ref) {
    eff.Store? ==>
      eff.key == u && RefFor(lib, added, eff.entry) &&
      multiset(eff.refs) ==
        multiset(refs) - (if 0 <= index < |refs| then multiset{refs[index]} else multiset{}) + multiset{added}
  }

  lemma MissConserves(lib: Library, number: nat, req: Request, refs: seq<Ref>, index: int, upstream: Option<Reply>,
                      clock: Freshness.Clock) returns (added: Ref)
    ensures Exchanges(lib, Miss(lib, number, req, refs, index, upstream, clock).effect, req.url.key, refs, index, added)
  {
    added := Ref("", "", map[], 0);
    if upstream.Some? {
      added := StoreConserves(lib, req, TimedReply(lib, upstream.value, clock.end), [number], refs, index, clock.start,
                              clock.end);
    }
  }

  lemma RevalidatedConserves(lib: Library, conn: Conn, number: nat, req: Request, stored: Entry, f: Freshness.Freshness,
                             ccReq: CC.Directives, refs: seq<Ref>, index: int, upstream: Option<Reply>,
                             clock: Freshness.Clock, faults: Faults) returns (added: Ref)
    ensures Exchanges(lib, Revalidated(lib, conn, number, req, stored, f, ccReq, refs, index, upstream, clock,
                                       faults).effect,
                      req.url.key, refs, index, added)
  {
    added := Ref("", "", map[], 0);
    ValidationEffect(lib, conn, number, req, stored, f, ccReq, refs, index, upstream, clock, faults);
    if upstream.Some? {
      var (data, lineage) := Written(lib, number, req, stored, upstream.value, clock);
      added := StoreConserves(lib, req, data, lineage, refs, index, clock.start, clock.end);
    }
  }

  lemma DispatchConserves(lib: Library, conn: Conn, number: nat, req: Request, l: Lookup, upstream: Option<Reply>,
                          clock: Freshness.Clock, faults: Faults) returns (added: Ref)
    requires l.Found? || l.Unreadable? ==> l.index < |l.refs|
    ensures Exchanges(lib, Dispatch(lib, conn, number, req, l, upstream, clock, faults).effect, req.url.key,
                      RefsOf(l), IndexOf(l), added)
  {
    if l.Found? {
      var f := Freshness.Calculate(lib, l.entry, DirectivesOf(req.header), DirectivesOf(l.entry.data.header), clock);
      added := RevalidatedConserves(lib, conn, number, Conditional(req, l.entry.data.header), l.entry, f,
                                    DirectivesOf(req.header), l.refs, l.index, upstream, clock, faults);
    } else {
      added := MissConserves(lib, number, req, RefsOf(l), IndexOf(l), upstream, clock);
    }
  }

  /** A foreground store changes the list, as a multiset, by exactly the selected ref out and
      one ref for the written entry in; with no selected ref, by the new one only. */
  lemma ForegroundConserves(lib: Library, conn: Conn, number: nat, req: Request, upstream: Option<Reply>,
                            clock: Freshness.Clock, faults: Faults) returns (added: Ref)
    requires Vary.PermutesRefs(lib) && IsUnderstood(req)
    ensures var v := RoundTrip(lib, conn, number, req, upstream, clock, faults);
            var l := Find(lib, conn, req, faults);
            v.effect.Store? ==>
              (l.Found? || l.Unreadable? ==> l.index < |l.refs|) &&
              v.effect.key == req.url.key && RefFor(lib, added, v.effect.entry) &&
              multiset(v.effect.refs) ==
                multiset(RefsOrNil(conn, req.url.key, faults)) - Selected(l) + multiset{added}
  {
    LookupPermutes(lib, conn, req, faults);
    added := DispatchConserves(lib, conn, number, req, Find(lib, conn, req, faults), upstream, clock, faults);
  }

  /** A background store leaves a list of one ref, for the entry it writes. */
  lemma BackgroundList(lib: Library, conn: Conn, number: nat, job: Job, upstream: Option<Reply>,
                       clock: Freshness.Clock, faults: Faults)
    ensures var eff := BackgroundRevalidate(lib, conn, number, job, upstream, clock, faults).effect;
            eff.Store? ==>
              |eff.refs| == 1 && eff.refs[0].id == eff.entry.id && eff.key == job.req.url.key &&
              ('#' !in eff.key ==> eff.entry.id != eff.key)
  {
    ValidationEffect(lib, conn, number, job.req, job.stored, job.freshness, job.ccReq, [], 0, upstream, clock, faults);
    var eff := BackgroundRevalidate(lib, conn, number, job, upstream, clock, faults).effect;
    if eff.Store? {
      Vary.VaryKeyHasHash(lib, eff.key, eff.refs[0].resolved);
    }
  }

  /** With one ref on the list a lookup finds its entry or none. */
  lemma OneRefFound(lib: Library, conn: Conn, r: Ref, e: Entry, req: Request, faults: Faults)
    requires Vary.PermutesRefs(lib)
    requires req.url.key in conn && conn[req.url.key] == Refs([r]) && r.id in conn && conn[r.id] == Stored(e)
    ensures var l := Find(lib, conn, req, faults);
            l.Found? ==> l.entry == e
  {
    var sorted := lib.sortRefs([r]);
    Vary.SamePermutation([r], sorted);
    forall i | 0 <= i < |sorted| ensures sorted[i] == r {
      assert sorted[i] in sorted;
      assert sorted[i] in [r];
    }
  }

  /** The background step stores what upstream answers: a 304, or a reply that may be stored and
      is no error the stale entry stands in for. */
  predicate Rewrites(lib: Library, job: Job, upstream: Option<Reply>, clock: Freshness.Clock) {
    upstream.Some? &&
    var ccResp := DirectivesOf(upstream.value.header);
    if job.req.verb == "GET" && upstream.value.status == 304 then true
    else
      !(job.req.verb == "GET" && StaleErrorAllowed(upstream.value.status) &&
        Freshness.CanStaleOnError(job.freshness, ccResp, clock.policy)) &&
      CanStore(TimedReply(lib, upstream.value, clock.end), job.ccReq, ccResp)
  }

  lemma BackgroundStoresIff(lib: Library, conn: Conn, number: nat, job: Job, upstream: Option<Reply>,
                            clock: Freshness.Clock, faults: Faults)
    ensures var eff := BackgroundRevalidate(lib, conn, number, job, upstream, clock, faults).effect;
            && (eff.Store? <==> Rewrites(lib, job, upstream, clock))
            && (!IsUnsafe(job.req.verb) && !Rewrites(lib, job, upstream, clock) ==> eff.Keep?)
  {
    if upstream.Some? {
      assert |"Cache-Control"| != |"Date"|;
      assert DirectivesOf(TimedReply(lib, upstream.value, clock.end).header) == DirectivesOf(upstream.value.header);
    }
  }

  /** A background step that stores forgets every other variant: no lookup for its URL key,
      whatever the request's fields, finds any entry but the one just written. One that does
      not store changes no lookup. So a variant other than the written one stays found if and
      only if upstream's answer is not stored. */
  lemma BackgroundForgets(lib: Library, w: World, n: nat, upstream: Option<Reply>, clock: Freshness.Clock,
                          faults: Faults, req: Request, faults': Faults)
    requires Vary.PermutesRefs(lib) && n < |w.pending| && faults.unwritable == {} && '#' !in w.pending[n].req.url.key
    requires req.url.key == w.pending[n].req.url.key
    ensures var step := Background(n, upstream, clock, faults);
            var eff := VerdictOf(lib, w, step).effect;
            var before := Find(lib, w.conn, req, faults');
            var after := Find(lib, Next(lib, w, step).conn, req, faults');
            var rewrites := Rewrites(lib, w.pending[n], upstream, clock);
            && (rewrites ==> eff.Store? && (after.Found? ==> after.entry == eff.entry))
            && (!rewrites && !IsUnsafe(w.pending[n].req.verb) ==> after == before)
            && (!IsUnsafe(w.pending[n].req.verb) && before.Found? && (eff.Store? ==> eff.entry != before.entry) ==>
                  (after.Found? && after.entry == before.entry <==> !rewrites))
  {
    var step := Background(n, upstream, clock, faults);
    var eff := VerdictOf(lib, w, step).effect;
    var conn' := Next(lib, w, step).conn;
    BackgroundStoresIff(lib, w.conn, |w.trace|, w.pending[n], upstream, clock, faults);
    BackgroundList(lib, w.conn, |w.trace|, w.pending[n], upstream, clock, faults);
    assert conn' == Apply(w.conn, eff, faults);
    if eff.Store? {
      assert eff.refs == [eff.refs[0]];
      OneRefFound(lib, conn', eff.refs[0], eff.entry, req, faults');
    }
  }
}
