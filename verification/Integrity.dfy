/**
  Two-level integrity, over every run with a backend that does not fail: every ref resolves
  to a stored entry, ref lists and entries never share a key, and an entry belongs to the
  list of one URL key only.
 */
module Integrity {
  import opened Base
  import opened Http
  import opened Protocol
  import opened Provenance
  import opened Invalidation
  import Vary
  import Freshness
  import CacheControl

  /** Every ref on every list names an entry that is there. */
  predicate Resolves(conn: Conn) {
    forall u :: u in conn && conn[u].Refs? ==> RefsResolve(conn, conn[u].refs)
  }

  predicate RefsResolve(conn: Conn, refs: seq<Ref>) {
    forall r :: r in refs ==> r.id in conn && conn[r.id].Stored?
  }

  /** Lists live under keys without '#', entries under keys with one. */
  predicate KeysApart(conn: Conn) {
    forall k :: k in conn ==> (conn[k].Refs? <==> Separated(k))
  }

  predicate OnList(conn: Conn, u: string, r: Ref) {
    u in conn && conn[u].Refs? && r in conn[u].refs
  }

  /** No ID is on the lists of two URL keys. */
  ghost predicate OneOwner(conn: Conn) {
    forall u, v, r, s :: OnList(conn, u, r) && OnList(conn, v, s) && r.id == s.id ==> u == v
  }

  /** A step as the theorem allows it: URL keys without '#', here and after resolving a
      location, and no backend failure. */
  predicate Sound(lib: Library, step: Step) {
    WellKeyed(step) && step.faults == NO_FAULTS &&
    (step.Foreground? && step.upstream.Some? ==>
      AllSeparated(LocationKeys(lib, step.req.url, step.upstream.value.header)))
  }

  /** Provenance already keeps the two kinds of key apart and every ID with one owner. */
  lemma ShapeFromProvenance(lib: Library, w: World)
    requires WorldOk(lib, w)
    ensures KeysApart(w.conn) && OneOwner(w.conn) && ListsMarked(w.conn)
  {
    forall k | k in w.conn ensures w.conn[k].Refs? <==> Separated(k) {
      EntryKeysMarked(lib, w, k);
    }
    forall u, v, r, s | OnList(w.conn, u, r) && OnList(w.conn, v, s) && r.id == s.id ensures u == v {
      RefIds(lib, w, u, r);
      RefIds(lib, w, v, s);
      Vary.VaryKeyInjective(lib, u, r.resolved, v, s.resolved);
    }
    forall u | u in w.conn && w.conn[u].Refs? ensures IdsMarked(w.conn[u].refs) {
      forall i | 0 <= i < |w.conn[u].refs| ensures !Separated(w.conn[u].refs[i].id) {
        RefIds(lib, w, u, w.conn[u].refs[i]);
      }
    }
  }

  lemma EntryKeysMarked(lib: Library, w: World, k: string)
    requires WorldOk(lib, w) && k in w.conn
    ensures w.conn[k].Refs? <==> Separated(k)
  {
    assert BlobOk(lib, w.trace, k, w.conn[k]);
    if w.conn[k].Stored? {
      var e := w.conn[k].entry;
      var u :| '#' !in u && EntryOk(lib, w.trace, e, u);
      Vary.VaryKeyHasHash(lib, u, ResolvedFor(lib, w.trace, e));
    }
  }

  lemma RefIds(lib: Library, w: World, u: string, r: Ref)
    requires WorldOk(lib, w) && OnList(w.conn, u, r)
    ensures Separated(u) && r.id == Vary.VaryKey(lib, u, r.resolved) && !Separated(r.id)
  {
    assert BlobOk(lib, w.trace, u, w.conn[u]);
    assert RefOk(lib, w.trace, r, u);
    Vary.VaryKeyHasHash(lib, u, r.resolved);
  }

  // ----- Stores -----

  /** The shape of every store effect: a marked ID, a separated key, and refs that were
      there before or name the entry just written. */
  predicate StoreShape(conn: Conn, eff: Effect) {
    eff.Store? ==>
      !Separated(eff.entry.id) && Separated(eff.key) &&
      forall r :: r in eff.refs ==> r.id == eff.entry.id || (r.id in conn && conn[r.id].Stored?)
  }

  lemma StoreEffectShape(lib: Library, conn: Conn, req: Request, resp: Reply, lineage: seq<nat>, refs: seq<Ref>,
                         index: int, start: Time, end: Time)
    requires Separated(req.url.key) && RefsResolve(conn, refs)
    ensures StoreShape(conn, StoreEffect(lib, req, resp, lineage, refs, index, start, end))
  {
    var eff := StoreEffect(lib, req, resp, lineage, refs, index, start, end);
    var data := resp.(header := EndToEnd(resp.header));
    Vary.VaryKeyHasHash(lib, req.url.key, Vary.Resolve(lib, VaryOf(data.header), req.header));
    forall r | r in eff.refs && r.id != eff.entry.id ensures r in refs {
    }
  }

  lemma StoreKeepsResolves(conn: Conn, eff: Effect)
    requires Resolves(conn) && KeysApart(conn) && eff.Store? && StoreShape(conn, eff)
    ensures Resolves(Apply(conn, eff, NO_FAULTS))
  {
    var conn' := Apply(conn, eff, NO_FAULTS);
    forall u, r | u in conn' && conn'[u].Refs? && r in conn'[u].refs ensures r.id in conn' && conn'[r.id].Stored? {
      if u != eff.key {
        assert conn'[u] == conn[u];
      }
    }
  }

  lemma ValidationShape(lib: Library, conn: Conn, number: nat, req: Request, stored: Entry, f: Freshness.Freshness,
                        ccReq: CacheControl.Directives, refs: seq<Ref>, index: int, upstream: Option<Reply>,
                        clock: Freshness.Clock, faults: Faults)
    requires req.verb == "GET" && Separated(req.url.key) && RefsResolve(conn, refs)
    ensures var v := Revalidated(lib, conn, number, req, stored, f, ccReq, refs, index, upstream, clock, faults);
            !v.effect.Erase? && StoreShape(conn, v.effect)
  {
    ValidationEffect(lib, conn, number, req, stored, f, ccReq, refs, index, upstream, clock, faults);
    if upstream.Some? {
      var (data, lineage) := Written(lib, number, req, stored, upstream.value, clock);
      StoreEffectShape(lib, conn, req, data, lineage, refs, index, clock.start, clock.end);
    }
  }

  lemma MissShape(lib: Library, conn: Conn, number: nat, req: Request, refs: seq<Ref>, index: int,
                  upstream: Option<Reply>, clock: Freshness.Clock)
    requires Separated(req.url.key) && RefsResolve(conn, refs)
    ensures var v := Miss(lib, number, req, refs, index, upstream, clock);
            !v.effect.Erase? && StoreShape(conn, v.effect)
  {
    var v := Miss(lib, number, req, refs, index, upstream, clock);
    if v.effect.Store? {
      StoreEffectShape(lib, conn, req, TimedReply(lib, upstream.value, clock.end), [number], refs, index, clock.start,
                       clock.end);
    }
  }

  lemma DispatchShape(lib: Library, conn: Conn, number: nat, req: Request, l: Lookup,
                      upstream: Option<Reply>, clock: Freshness.Clock, faults: Faults)
    requires IsUnderstood(req) && Separated(req.url.key)
    requires !l.Nothing? ==> RefsResolve(conn, l.refs)
    ensures var v := Dispatch(lib, conn, number, req, l, upstream, clock, faults);
            !v.effect.Erase? && StoreShape(conn, v.effect)
  {
    if l.Found? {
      var ccReq := DirectivesOf(req.header);
      var ccResp := DirectivesOf(l.entry.data.header);
      var f := Freshness.Calculate(lib, l.entry, ccReq, ccResp, clock);
      ConditionalOk(req, l.entry.data.header);
      if RouteOf(f, ccReq, ccResp, clock.swr).Revalidate? {
        ValidationShape(lib, conn, number, Conditional(req, l.entry.data.header), l.entry, f, ccReq, l.refs, l.index,
                        upstream, clock, faults);
      }
    } else {
      MissShape(lib, conn, number, req, RefsOf(l), IndexOf(l), upstream, clock);
    }
  }

  // ----- Invalidations -----

  /** The keys an invalidation of `url` deletes. */
  function Doomed(lib: Library, conn: Conn, url: URL, h: Header): seq<string> {
    Trail(lib, conn, url, h, RefsOrNil(conn, url.key, NO_FAULTS), NO_FAULTS)
  }

  /** A list that survives an invalidation keeps all its entries. */
  lemma SurvivorIntact(lib: Library, conn: Conn, url: URL, h: Header, u: string, r: Ref)
    requires OneOwner(conn) && ListsMarked(conn)
    requires Separated(url.key) && AllSeparated(LocationKeys(lib, url, h))
    requires OnList(conn, u, r) && u !in Doomed(lib, conn, url, h)
    ensures r.id !in Doomed(lib, conn, url, h)
  {
    TrailExact(lib, conn, url, h, NO_FAULTS);
    if r.id in Doomed(lib, conn, url, h) {
      var x :| (x == url.key || x in LocationKeys(lib, url, h)) && (r.id == x || r.id in IdsAt(conn, x, NO_FAULTS));
      assert Separated(x);
      assert IdsMarked(conn[u].refs);
      assert r.id != x;
      assert x in Doomed(lib, conn, url, h);
      var s := OwnerOf(conn, x, r.id);
      assert false;
    }
  }

  lemma OwnerOf(conn: Conn, x: string, id: string) returns (s: Ref)
    requires id in IdsAt(conn, x, NO_FAULTS)
    ensures OnList(conn, x, s) && s.id == id
  {
    var ids := IdsAt(conn, x, NO_FAULTS);
    var i :| 0 <= i < |ids| && ids[i] == id;
    s := RefsOrNil(conn, x, NO_FAULTS)[i];
  }

  lemma DeletionKeepsResolves(conn: Conn, trail: seq<string>)
    requires Resolves(conn)
    requires forall u, r :: OnList(conn, u, r) && u !in trail ==> r.id !in trail
    ensures Resolves(Apply(conn, Erase(trail), NO_FAULTS))
  {
    var conn' := Apply(conn, Erase(trail), NO_FAULTS);
    forall u | u in conn' && conn'[u].Refs? ensures RefsResolve(conn', conn'[u].refs) {
      assert u in conn && conn[u] == conn'[u];
      forall r | r in conn'[u].refs ensures r.id in conn' && conn'[r.id].Stored? {
        assert OnList(conn, u, r);
      }
    }
  }

  lemma EraseKeepsResolves(lib: Library, w: World, url: URL, h: Header)
    requires WorldOk(lib, w) && Resolves(w.conn)
    requires Separated(url.key) && AllSeparated(LocationKeys(lib, url, h))
    ensures Resolves(Apply(w.conn, Erase(Doomed(lib, w.conn, url, h)), NO_FAULTS))
  {
    ShapeFromProvenance(lib, w);
    var trail := Doomed(lib, w.conn, url, h);
    forall u, r | OnList(w.conn, u, r) && u !in trail ensures r.id !in trail {
      SurvivorIntact(lib, w.conn, url, h, u, r);
    }
    DeletionKeepsResolves(w.conn, trail);
  }

  // ----- Steps and runs -----

  lemma UnrecognizedResolves(lib: Library, w: World, step: Step)
    requires WorldOk(lib, w) && Resolves(w.conn) && Sound(lib, step)
    requires step.Foreground? && !IsUnderstood(step.req)
    ensures Resolves(Next(lib, w, step).conn)
  {
    var v := Unrecognized(lib, w.conn, step.req, step.upstream, step.clock, step.faults);
    if v.effect.Erase? {
      EraseKeepsResolves(lib, w, step.req.url, step.upstream.value.header);
    }
  }

  lemma FoundRefsResolve(lib: Library, conn: Conn, req: Request, faults: Faults)
    requires Resolves(conn) && Vary.PermutesRefs(lib)
    ensures var l := Find(lib, conn, req, faults);
            !l.Nothing? ==> RefsResolve(conn, l.refs)
  {
    var l := Find(lib, conn, req, faults);
    if !l.Nothing? {
      var refs := conn[req.url.key].refs;
      assert RefsResolve(conn, refs);
      Vary.SamePermutation(refs, l.refs);
    }
  }

  lemma UnderstoodResolves(lib: Library, w: World, step: Step)
    requires KeysApart(w.conn) && Resolves(w.conn) && Vary.PermutesRefs(lib) && Sound(lib, step)
    requires step.Foreground? && IsUnderstood(step.req)
    ensures Resolves(Next(lib, w, step).conn)
  {
    var l := Find(lib, w.conn, step.req, step.faults);
    FoundRefsResolve(lib, w.conn, step.req, step.faults);
    DispatchShape(lib, w.conn, |w.trace|, step.req, l, step.upstream, step.clock, step.faults);
    var v := Dispatch(lib, w.conn, |w.trace|, step.req, l, step.upstream, step.clock, step.faults);
    assert VerdictOf(lib, w, step) == v;
    KeepOrStoreResolves(w.conn, v.effect);
  }

  lemma BackgroundResolves(lib: Library, w: World, step: Step)
    requires WorldOk(lib, w) && Resolves(w.conn) && Sound(lib, step)
    requires step.Background? && step.job < |w.pending|
    ensures Resolves(Next(lib, w, step).conn)
  {
    ShapeFromProvenance(lib, w);
    var j := w.pending[step.job];
    assert j in w.pending;
    ValidationShape(lib, w.conn, |w.trace|, j.req, j.stored, j.freshness, j.ccReq, [], 0, step.upstream, step.clock,
                    step.faults);
    KeepOrStoreResolves(w.conn, VerdictOf(lib, w, step).effect);
  }

  lemma NextResolves(lib: Library, w: World, step: Step)
    requires WorldOk(lib, w) && Resolves(w.conn) && Vary.PermutesRefs(lib) && Sound(lib, step)
    ensures Resolves(Next(lib, w, step).conn)
  {
    if step.Background? {
      if step.job < |w.pending| {
        BackgroundResolves(lib, w, step);
      }
    } else if IsUnderstood(step.req) {
      ShapeFromProvenance(lib, w);
      UnderstoodResolves(lib, w, step);
    } else {
      UnrecognizedResolves(lib, w, step);
    }
  }

  lemma KeepOrStoreResolves(conn: Conn, eff: Effect)
    requires Resolves(conn) && KeysApart(conn) && !eff.Erase? && StoreShape(conn, eff)
    ensures Resolves(Apply(conn, eff, NO_FAULTS))
  {
    if eff.Store? {
      StoreKeepsResolves(conn, eff);
    }
  }

  /** In every run from the empty cache without backend failures, through stores, 304s,
      background re-stores and invalidations, the two levels agree. */
  lemma {:induction false} RunResolves(lib: Library, steps: seq<Step>)
    requires Vary.PermutesRefs(lib)
    requires forall i :: 0 <= i < |steps| ==> Sound(lib, steps[i])
    ensures var conn := Run(lib, INIT, steps).conn;
            Resolves(conn) && KeysApart(conn) && OneOwner(conn)
    decreases |steps|
  {
    RunOk(lib, steps);
    ShapeFromProvenance(lib, Run(lib, INIT, steps));
    if steps != [] {
      var n := |steps| - 1;
      RunResolves(lib, steps[..n]);
      RunOk(lib, steps[..n]);
      NextResolves(lib, Run(lib, INIT, steps[..n]), steps[n]);
    }
  }
}
