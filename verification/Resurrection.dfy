/**
  No resurrection: after an unsafe request has invalidated a URL key, no entry stored before
  is ever selected for that key again. Orphaned entries may survive the invalidation; they
  cannot be reached. The one way back is a background revalidation still pending for the
  key, and it is always a way back.
 */
module Resurrection {
  import opened Base
  import opened Http
  import opened Protocol
  import opened Provenance
  import Csv
  import Freshness
  import Vary
  import CC = CacheControl

  /** The entry descends from a reply admitted among the first `n` exchanges. */
  predicate Older(e: Entry, n: nat)
    requires e.lineage != []
  {
    e.lineage[0] < n
  }

  /** Steps in which the backend may fail to read or delete, but never to write. */
  predicate Writable(step: Step) {
    WellKeyed(step) && step.faults.unwritable == {}
  }

  predicate AllWritable(steps: seq<Step>) {
    forall i :: 0 <= i < |steps| ==> Writable(steps[i])
  }

  /** No entry that the list of `u` leads to is older than `n`. */
  predicate ListSince(conn: Conn, u: string, n: nat) {
    u in conn && conn[u].Refs? ==>
      forall r :: r in conn[u].refs && r.id in conn && conn[r.id].Stored? ==>
        conn[r.id].entry.lineage != [] && !Older(conn[r.id].entry, n)
  }

  predicate NonePending(w: World, u: string, n: nat) {
    forall j :: j in w.pending && j.req.url.key == u ==> j.stored.lineage != [] && !Older(j.stored, n)
  }

  /** Nothing older than `n` can be selected for `u` now or restored by a pending job. */
  predicate Cut(w: World, u: string, n: nat) {
    n <= |w.trace| && ListSince(w.conn, u, n) && NonePending(w, u, n)
  }

  // ----- The cut is kept -----

  predicate RefsSince(conn: Conn, refs: seq<Ref>, n: nat) {
    forall r :: r in refs && r.id in conn && conn[r.id].Stored? ==>
      conn[r.id].entry.lineage != [] && !Older(conn[r.id].entry, n)
  }

  /** What a verdict may write for `u`: an entry not older than `n`, and a list of old refs
      plus the new one. Writes for other keys touch neither the list nor its entries. */
  predicate EffectSince(conn: Conn, eff: Effect, u: string, n: nat) {
    eff.Store? && eff.key == u ==>
      eff.entry.lineage != [] && !Older(eff.entry, n) &&
      forall r :: r in eff.refs ==>
        r.id == eff.entry.id ||
        (r.id in conn && conn[r.id].Stored? ==> conn[r.id].entry.lineage != [] && !Older(conn[r.id].entry, n))
  }

  predicate VerdictSince(conn: Conn, v: Verdict, u: string, n: nat) {
    EffectSince(conn, v.effect, u, n) &&
    (v.job.Some? && v.job.value.req.url.key == u ==>
      v.job.value.stored.lineage != [] && !Older(v.job.value.stored, n))
  }

  /** A write for another URL key leaves the list of `u` and its entries alone. */
  predicate Elsewhere(conn: Conn, eff: Effect, u: string) {
    eff.Store? && eff.key != u ==>
      eff.entry.id != u &&
      (u in conn && conn[u].Refs? ==> forall r :: r in conn[u].refs ==> r.id != eff.entry.id && r.id != eff.key)
  }

  lemma ApplySince(conn: Conn, eff: Effect, faults: Faults, u: string, n: nat)
    requires ListSince(conn, u, n) && EffectSince(conn, eff, u, n) && Elsewhere(conn, eff, u)
    requires faults.unwritable == {}
    ensures ListSince(Apply(conn, eff, faults), u, n)
  {
  }

  lemma ElsewhereOk(lib: Library, w: World, trace: seq<Exchange>, eff: Effect, u: string)
    requires WorldOk(lib, w) && EffectOk(lib, trace, eff) && '#' !in u
    ensures Elsewhere(w.conn, eff, u)
  {
    if eff.Store? && eff.key != u {
      var m := ResolvedFor(lib, trace, eff.entry);
      Vary.VaryKeyHasHash(lib, eff.key, m);
      if u in w.conn && w.conn[u].Refs? {
        assert BlobOk(lib, w.trace, u, w.conn[u]);
        forall r | r in w.conn[u].refs ensures r.id != eff.entry.id && r.id != eff.key {
          assert RefOk(lib, w.trace, r, u);
          Vary.VaryKeyHasHash(lib, u, r.resolved);
          if r.id == eff.entry.id {
            Vary.VaryKeyInjective(lib, u, r.resolved, eff.key, m);
          }
        }
      }
    }
  }

  /** A store writes what it is given the lineage of, and keeps the other refs it is given. */
  lemma StoreSince(lib: Library, conn: Conn, req: Request, resp: Reply, lineage: seq<nat>, refs: seq<Ref>,
                   index: int, start: Time, end: Time, u: string, n: nat)
    requires lineage != [] && lineage[0] >= n
    requires req.url.key == u ==> RefsSince(conn, refs, n)
    ensures EffectSince(conn, StoreEffect(lib, req, resp, lineage, refs, index, start, end), u, n)
  {
    var eff := StoreEffect(lib, req, resp, lineage, refs, index, start, end);
    forall r | r in eff.refs && r.id != eff.entry.id ensures r in refs {
    }
  }

  lemma MissSince(lib: Library, conn: Conn, number: nat, req: Request, refs: seq<Ref>, index: int,
                  upstream: Option<Reply>, clock: Freshness.Clock, u: string, n: nat)
    requires n <= number && (req.url.key == u ==> RefsSince(conn, refs, n))
    ensures VerdictSince(conn, Miss(lib, number, req, refs, index, upstream, clock), u, n)
  {
    var v := Miss(lib, number, req, refs, index, upstream, clock);
    if v.effect.Store? {
      StoreSince(lib, conn, req, TimedReply(lib, upstream.value, clock.end), [number], refs, index, clock.start,
                 clock.end, u, n);
    }
  }

  lemma RevalidatedSince(lib: Library, conn: Conn, number: nat, req: Request, stored: Entry, f: Freshness.Freshness,
                         ccReq: CC.Directives, refs: seq<Ref>, index: int, upstream: Option<Reply>,
                         clock: Freshness.Clock, faults: Faults, u: string, n: nat)
    requires n <= number
    requires req.url.key == u ==> RefsSince(conn, refs, n) && stored.lineage != [] && !Older(stored, n)
    ensures VerdictSince(conn, Revalidated(lib, conn, number, req, stored, f, ccReq, refs, index, upstream, clock,
                                           faults), u, n)
  {
    var v := Revalidated(lib, conn, number, req, stored, f, ccReq, refs, index, upstream, clock, faults);
    if v.effect.Store? && req.url.key == u {
      var resp := TimedReply(lib, upstream.value, clock.end);
      if resp.status == 304 {
        var merged := Freshened(stored, resp);
        StoreSince(lib, conn, req, merged, stored.lineage + [number], refs, index, clock.start, clock.end, u, n);
      }
      StoreSince(lib, conn, req, resp, [number], refs, index, clock.start, clock.end, u, n);
    }
  }

  lemma HitSince(lib: Library, conn: Conn, number: nat, req: Request, stored: Entry, refs: seq<Ref>, index: int,
                 upstream: Option<Reply>, clock: Freshness.Clock, faults: Faults, u: string, n: nat)
    requires n <= number
    requires req.url.key == u ==> RefsSince(conn, refs, n) && stored.lineage != [] && !Older(stored, n)
    ensures VerdictSince(conn, Hit(lib, conn, number, req, stored, refs, index, upstream, clock, faults), u, n)
  {
    var ccReq := DirectivesOf(req.header);
    var ccResp := DirectivesOf(stored.data.header);
    var f := Freshness.Calculate(lib, stored, ccReq, ccResp, clock);
    if RouteOf(f, ccReq, ccResp, clock.swr).Revalidate? {
      RevalidatedSince(lib, conn, number, Conditional(req, stored.data.header), stored, f, ccReq, refs, index,
                       upstream, clock, faults, u, n);
    }
  }

  predicate LookupSince(conn: Conn, l: Lookup, n: nat) {
    (!l.Nothing? ==> RefsSince(conn, l.refs, n)) &&
    (l.Found? ==> l.entry.lineage != [] && !Older(l.entry, n))
  }

  /** Behind the cut a lookup finds nothing older. */
  lemma FindSince(lib: Library, conn: Conn, req: Request, faults: Faults, n: nat)
    requires ListSince(conn, req.url.key, n) && Vary.PermutesRefs(lib)
    ensures LookupSince(conn, Find(lib, conn, req, faults), n)
  {
    var l := Find(lib, conn, req, faults);
    if !l.Nothing? {
      Vary.SamePermutation(conn[req.url.key].refs, l.refs);
      if l.Found? {
        assert l.refs[l.index] in l.refs;
      }
    }
  }

  lemma DispatchSince(lib: Library, conn: Conn, number: nat, req: Request, l: Lookup, upstream: Option<Reply>,
                      clock: Freshness.Clock, faults: Faults, u: string, n: nat)
    requires n <= number && (req.url.key == u ==> LookupSince(conn, l, n))
    ensures VerdictSince(conn, Dispatch(lib, conn, number, req, l, upstream, clock, faults), u, n)
  {
    if l.Found? {
      HitSince(lib, conn, number, req, l.entry, l.refs, l.index, upstream, clock, faults, u, n);
    } else {
      MissSince(lib, conn, number, req, RefsOf(l), IndexOf(l), upstream, clock, u, n);
    }
  }

  lemma VerdictSinceCut(lib: Library, w: World, step: Step, u: string, n: nat)
    requires Cut(w, u, n) && Vary.PermutesRefs(lib)
    requires step.Background? ==> step.job < |w.pending|
    ensures VerdictSince(w.conn, VerdictOf(lib, w, step), u, n)
  {
    match step
    case Background(job, upstream, clock, faults) =>
      var j := w.pending[job];
      assert j in w.pending;
      RevalidatedSince(lib, w.conn, |w.trace|, j.req, j.stored, j.freshness, j.ccReq, [], 0, upstream, clock, faults, u,
                       n);
    case Foreground(req, upstream, clock, faults) =>
      if IsUnderstood(req) {
        var l := Find(lib, w.conn, req, faults);
        if req.url.key == u {
          FindSince(lib, w.conn, req, faults, n);
        }
        DispatchSince(lib, w.conn, |w.trace|, req, l, upstream, clock, faults, u, n);
      }
  }

  lemma PendingSince(w: World, v: Verdict, w': World, u: string, n: nat)
    requires Cut(w, u, n) && VerdictSince(w.conn, v, u, n) && ListSince(w'.conn, u, n)
    requires |w.trace| <= |w'.trace| && forall j :: j in w'.pending ==> j in w.pending || v.job == Some(j)
    ensures Cut(w', u, n)
  {
  }

  lemma NextCut(lib: Library, w: World, step: Step, u: string, n: nat)
    requires WorldOk(lib, w) && Cut(w, u, n) && '#' !in u
    requires Vary.PermutesRefs(lib) && Writable(step)
    ensures Cut(Next(lib, w, step), u, n)
  {
    if step.Foreground? || step.job < |w.pending| {
      var v := VerdictOf(lib, w, step);
      VerdictSinceCut(lib, w, step, u, n);
      StepOk(lib, w, step);
      ElsewhereOk(lib, w, w.trace + Listed(v.exchange), v.effect, u);
      ApplySince(w.conn, v.effect, step.faults, u, n);
      PendingSince(w, v, Next(lib, w, step), u, n);
    }
  }

  lemma {:induction false} RunCut(lib: Library, w: World, steps: seq<Step>, u: string, n: nat)
    requires WorldOk(lib, w) && Cut(w, u, n) && '#' !in u
    requires Vary.PermutesRefs(lib) && AllWritable(steps)
    ensures WorldOk(lib, Run(lib, w, steps)) && Cut(Run(lib, w, steps), u, n)
    decreases |steps|
  {
    if steps != [] {
      var k := |steps| - 1;
      RunCut(lib, w, steps[..k], u, n);
      NextCut(lib, Run(lib, w, steps[..k]), steps[k], u, n);
      NextOk(lib, Run(lib, w, steps[..k]), steps[k]);
    }
  }

  // ----- The invalidation makes the cut -----

  lemma {:induction false} LocationTrailCovers(conn: Conn, gone: seq<string>, locations: seq<string>, faults: Faults)
    ensures forall k :: k in gone || k in locations ==> k in LocationTrail(conn, gone, locations, faults)
    decreases |locations|
  {
    if locations != [] {
      var ids := Ids(RefsOrNil(Without(conn, gone, faults), locations[0], faults));
      LocationTrailCovers(conn, gone + ids + [locations[0]], locations[1..], faults);
    }
  }

  lemma InvalidatingVerdict(lib: Library, w: World, step: Step, u: string)
    requires Invalidates(lib, step, u)
    ensures var v := VerdictOf(lib, w, step);
            v.effect.Erase? && u in v.effect.trail && v.job.None?
  {
    var refs := RefsOrNil(w.conn, step.req.url.key, step.faults);
    var header := step.upstream.value.header;
    LocationTrailCovers(w.conn, Ids(refs), LocationKeys(lib, step.req.url, header), step.faults);
    assert u in Trail(lib, w.conn, step.req.url, header, refs, step.faults);
  }

  /** The step is an unsafe request with a 2xx or 3xx reply, and it addresses `u`: as its
      target or as a same-origin location. */
  predicate Invalidates(lib: Library, step: Step, u: string) {
    step.Foreground? && IsUnsafe(step.req.verb) && step.upstream.Some? &&
    IsNonError(step.upstream.value.status) &&
    (u == step.req.url.key || u in LocationKeys(lib, step.req.url, step.upstream.value.header))
  }

  lemma InvalidationCuts(lib: Library, w: World, step: Step, u: string)
    requires Invalidates(lib, step, u) && u !in step.faults.undeletable
    ensures var w' := Next(lib, w, step);
            u !in w'.conn && w'.pending == w.pending && ListSince(w'.conn, u, |w'.trace|)
  {
    InvalidatingVerdict(lib, w, step, u);
    assert u !in Without(w.conn, VerdictOf(lib, w, step).effect.trail, step.faults);
  }

  /** No resurrection: once an unsafe request with a non-error reply has addressed `u`, its key
      could be deleted and no background revalidation is pending for it, every entry any
      later lookup for `u` finds descends from a reply obtained after that request, in
      every continuation in which backend writes succeed. */
  lemma NoResurrection(lib: Library, w: World, step: Step, u: string, steps: seq<Step>, req: Request, faults: Faults)
    requires WorldOk(lib, w) && Vary.PermutesRefs(lib) && WellKeyed(step) && '#' !in u
    requires Invalidates(lib, step, u) && u !in step.faults.undeletable
    requires forall j :: j in w.pending ==> j.req.url.key != u
    requires AllWritable(steps) && req.url.key == u
    ensures var w' := Next(lib, w, step);
            var l := Find(lib, Run(lib, w', steps).conn, req, faults);
            l.Found? ==> l.entry.lineage != [] && !Older(l.entry, |w'.trace|)
  {
    var w' := Next(lib, w, step);
    InvalidationCuts(lib, w, step, u);
    NextOk(lib, w, step);
    RunCut(lib, w', steps, u, |w'.trace|);
    FindSince(lib, Run(lib, w', steps).conn, req, faults, |w'.trace|);
  }

  // ----- Exactly when -----

  /** In no continuation with successful writes does a lookup for `u` find an older entry. */
  ghost predicate NeverOlder(lib: Library, w: World, u: string, n: nat) {
    forall steps: seq<Step>, req: Request, faults: Faults :: AllWritable(steps) && req.url.key == u ==>
      LooksUpNewer(lib, w, steps, req, faults, n)
  }

  predicate LooksUpNewer(lib: Library, w: World, steps: seq<Step>, req: Request, faults: Faults, n: nat) {
    NotOlder(Find(lib, Run(lib, w, steps).conn, req, faults), n)
  }

  predicate NotOlder(l: Lookup, n: nat) {
    l.Found? ==> l.entry.lineage != [] && !Older(l.entry, n)
  }

  /** The reply that brings a pending entry back: a 304 that empties its Vary. */
  const REVIVING: Reply := Reply(304, map["Vary" := [""]], "")

  lemma RevivedHeader(lib: Library, stored: Header, end: Time)
    requires stored.Keys !! FIXED_HOP
    ensures var merged := Merge(stored, TimedReply(lib, REVIVING, end).header);
            EndToEnd(merged) == merged && VaryOf(merged) == ""
  {
    var src := TimedReply(lib, REVIVING, end).header;
    assert "Vary"[0] == 'V' && "Date"[0] == 'D';
    assert src["Vary"] == [""];
    assert "Connection" !in src by {
      assert |"Connection"| != |"Vary"| && |"Connection"| != |"Date"|;
    }
    assert Csv.Split("") == [];
    assert "Vary" !in FIXED_HOP by {
      forall k | k in FIXED_HOP ensures k != "Vary" {
        assert k[0] != 'V';
      }
    }
    assert |"Content-Length"| != |"Vary"|;
    EndToEndClean(src);
    EndToEndFixpoint(Merge(stored, src));
  }

  lemma SingletonSort(lib: Library, r: Ref)
    requires Vary.PermutesRefs(lib)
    ensures lib.sortRefs([r]) == [r]
  {
    Vary.SamePermutation([r], lib.sortRefs([r]));
    var s := lib.sortRefs([r]);
    assert s[0] in s;
    assert s[0] in [r];
  }

  /** What the reviving reply makes a background revalidation write. */
  lemma RevivedEffect(lib: Library, conn: Conn, number: nat, j: Job, clock: Freshness.Clock)
    requires j.req.verb == "GET" && j.stored.data.header.Keys !! FIXED_HOP
    ensures var eff := BackgroundRevalidate(lib, conn, number, j, Some(REVIVING), clock, NO_FAULTS).effect;
            && eff.Store? && eff.key == j.req.url.key
            && eff.entry.lineage == j.stored.lineage + [number]
            && eff.entry.id == Vary.VaryKey(lib, eff.key, map[])
            && |eff.refs| == 1 && eff.refs[0].id == eff.entry.id
            && eff.refs[0].vary == "" && eff.refs[0].resolved == map[]
  {
    RevivedHeader(lib, j.stored.data.header, clock.end);
    assert Csv.Split("") == [];
    assert Vary.Resolve(lib, "", j.req.header) == map[];
  }

  /** A list of one unconditional ref is found whatever the request. */
  lemma FoundSingleton(lib: Library, conn: Conn, r: Ref, e: Entry, req: Request)
    requires Vary.PermutesRefs(lib)
    requires req.url.key in conn && conn[req.url.key] == Refs([r])
    requires r.id in conn && conn[r.id] == Stored(e)
    requires r.vary == "" && r.resolved == map[]
    ensures Find(lib, conn, req, NO_FAULTS) == Found(e, [r], 0)
  {
    SingletonSort(lib, r);
    assert Vary.Matches(lib, r, req.header);
    assert Vary.FirstMatch(lib, [r], req.header) == 0;
  }

  /** A pending revalidation of an older entry can bring it back, whatever was invalidated
      in between. */
  lemma PendingResurrects(lib: Library, w: World, i: nat, clock: Freshness.Clock)
    requires WorldOk(lib, w) && Vary.PermutesRefs(lib) && i < |w.pending|
    ensures var j := w.pending[i];
            var w' := Next(lib, w, Background(i, Some(REVIVING), clock, NO_FAULTS));
            var l := Find(lib, w'.conn, j.req, NO_FAULTS);
            l.Found? && j.stored.lineage != [] && l.entry.lineage != [] && l.entry.lineage[0] == j.stored.lineage[0]
  {
    assert w.pending[i] in w.pending;
    JobResurrects(lib, w, i, clock);
  }

  lemma JobResurrects(lib: Library, w: World, i: nat, clock: Freshness.Clock)
    requires Vary.PermutesRefs(lib) && i < |w.pending| && JobOk(lib, w.trace, w.pending[i])
    ensures var j := w.pending[i];
            var w' := Next(lib, w, Background(i, Some(REVIVING), clock, NO_FAULTS));
            var l := Find(lib, w'.conn, j.req, NO_FAULTS);
            l.Found? && j.stored.lineage != [] && l.entry.lineage != [] && l.entry.lineage[0] == j.stored.lineage[0]
  {
    var j := w.pending[i];
    var eff := BackgroundRevalidate(lib, w.conn, |w.trace|, j, Some(REVIVING), clock, NO_FAULTS).effect;
    RevivedFound(lib, w.conn, |w.trace|, j, clock);
    BackgroundConn(lib, w, i, Some(REVIVING), clock, NO_FAULTS);
  }

  /** What a background step leaves in the store. */
  lemma BackgroundConn(lib: Library, w: World, i: nat, upstream: Option<Reply>, clock: Freshness.Clock, faults: Faults)
    requires i < |w.pending|
    ensures Next(lib, w, Background(i, upstream, clock, faults)).conn
            == Apply(w.conn, BackgroundRevalidate(lib, w.conn, |w.trace|, w.pending[i], upstream, clock, faults).effect,
                     faults)
  {
  }

  /** The entry the reviving reply writes is found by the job's own request. */
  lemma RevivedFound(lib: Library, conn: Conn, number: nat, j: Job, clock: Freshness.Clock)
    requires Vary.PermutesRefs(lib) && j.req.verb == "GET" && j.stored.data.header.Keys !! FIXED_HOP
    ensures var eff := BackgroundRevalidate(lib, conn, number, j, Some(REVIVING), clock, NO_FAULTS).effect;
            eff.Store? && eff.entry.lineage == j.stored.lineage + [number] &&
            Find(lib, Apply(conn, eff, NO_FAULTS), j.req, NO_FAULTS) == Found(eff.entry, eff.refs, 0)
  {
    RevivedEffect(lib, conn, number, j, clock);
    var eff := BackgroundRevalidate(lib, conn, number, j, Some(REVIVING), clock, NO_FAULTS).effect;
    Vary.VaryKeyHasHash(lib, eff.key, map[]);
    StoredAlone(lib, conn, eff, j.req);
  }

  /** A singleton list just written is found. */
  lemma StoredAlone(lib: Library, conn: Conn, eff: Effect, req: Request)
    requires Vary.PermutesRefs(lib) && eff.Store? && eff.key == req.url.key && eff.entry.id != eff.key
    requires |eff.refs| == 1 && eff.refs[0].id == eff.entry.id
    requires eff.refs[0].vary == "" && eff.refs[0].resolved == map[]
    ensures Find(lib, Apply(conn, eff, NO_FAULTS), req, NO_FAULTS) == Found(eff.entry, eff.refs, 0)
  {
    assert eff.refs == [eff.refs[0]];
    FoundSingleton(lib, Apply(conn, eff, NO_FAULTS), eff.refs[0], eff.entry, req);
  }

  lemma PendingBreaksNeverOlder(lib: Library, w: World, u: string, n: nat, i: nat)
    requires WorldOk(lib, w) && Vary.PermutesRefs(lib)
    requires i < |w.pending| && w.pending[i].req.url.key == u
    requires w.pending[i].stored.lineage != [] ==> Older(w.pending[i].stored, n)
    ensures !NeverOlder(lib, w, u, n)
  {
    var j := w.pending[i];
    var clock := Freshness.Clock(0, 0, 0, 0, 0, 0, 0);
    var step := Background(i, Some(REVIVING), clock, NO_FAULTS);
    PendingResurrects(lib, w, i, clock);
    assert [step][..0] == [] && Run(lib, w, []) == w;
    assert Run(lib, w, [step]) == Next(lib, w, step);
    assert AllWritable([step]);
    assert !LooksUpNewer(lib, w, [step], j.req, NO_FAULTS, n);
  }

  lemma CutLookup(lib: Library, w: World, steps: seq<Step>, req: Request, faults: Faults, n: nat)
    requires WorldOk(lib, w) && Cut(w, req.url.key, n) && '#' !in req.url.key
    requires Vary.PermutesRefs(lib) && AllWritable(steps)
    ensures LooksUpNewer(lib, w, steps, req, faults, n)
  {
    RunCut(lib, w, steps, req.url.key, n);
    FindSince(lib, Run(lib, w, steps).conn, req, faults, n);
  }

  lemma CutNeverOlder(lib: Library, w: World, u: string, n: nat)
    requires WorldOk(lib, w) && Cut(w, u, n) && '#' !in u && Vary.PermutesRefs(lib)
    ensures NeverOlder(lib, w, u, n)
  {
    forall steps: seq<Step>, req: Request, faults: Faults | AllWritable(steps) && req.url.key == u
      ensures LooksUpNewer(lib, w, steps, req, faults, n)
    {
      CutLookup(lib, w, steps, req, faults, n);
    }
  }

  /** Where the list holds nothing older, older entries stay away in every continuation if
      and only if no revalidation of one is pending for the key. */
  lemma NeverOlderIff(lib: Library, w: World, u: string, n: nat)
    requires WorldOk(lib, w) && Vary.PermutesRefs(lib) && '#' !in u
    requires n <= |w.trace| && ListSince(w.conn, u, n)
    ensures NeverOlder(lib, w, u, n) <==> NonePending(w, u, n)
  {
    if NonePending(w, u, n) {
      CutNeverOlder(lib, w, u, n);
    } else {
      var i := PendingOlder(w, u, n);
      PendingBreaksNeverOlder(lib, w, u, n, i);
    }
  }

  lemma PendingOlder(w: World, u: string, n: nat) returns (i: nat)
    requires !NonePending(w, u, n)
    ensures i < |w.pending| && w.pending[i].req.url.key == u
    ensures w.pending[i].stored.lineage != [] ==> Older(w.pending[i].stored, n)
  {
    var j :| j in w.pending && j.req.url.key == u && !(j.stored.lineage != [] && !Older(j.stored, n));
    i :| 0 <= i < |w.pending| && w.pending[i] == j;
  }
}
