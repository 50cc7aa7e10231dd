/**
  What a lineage starts from. The code admits a 304 like any other reply, so one that answers a
  lookup without an entry, because the client sent its own precondition, is stored as a reply of
  its own. Here is exactly when that happens; where it does not, every stored reply descends
  from a full one.
 */
module Origins {
  import opened Base
  import opened Http
  import opened Protocol
  import Freshness
  import Provenance
  import Vary
  import CC = CacheControl

  /** The step stores a bare 304: no entry to freshen, and nothing forbids storing. */
  predicate AdmitsBare(lib: Library, w: World, step: Step) {
    step.Foreground? && IsUnderstood(step.req) && !Find(lib, w.conn, step.req, step.faults).Found? &&
    BareAdmitted(step.req, step.upstream)
  }

  predicate BareAdmitted(req: Request, upstream: Option<Reply>) {
    upstream.Some? && upstream.value.status == 304 && !CC.OnlyIfCached(DirectivesOf(req.header)) &&
    !CC.NoStore(DirectivesOf(req.header)) && !CC.NoStore(DirectivesOf(upstream.value.header))
  }

  predicate EffectFull(eff: Effect) {
    eff.Store? ==> eff.entry.data.status != 304
  }

  predicate JobFull(j: Job) {
    j.req.verb == "GET" && j.stored.data.status != 304
  }

  predicate VerdictFull(v: Verdict) {
    EffectFull(v.effect) && (v.job.Some? ==> JobFull(v.job.value))
  }

  predicate ConnFull(conn: Conn) {
    forall k :: k in conn && conn[k].Stored? ==> conn[k].entry.data.status != 304
  }

  /** No stored reply, and none a pending job holds, is a 304. */
  predicate AllFull(w: World) {
    ConnFull(w.conn) && forall j :: j in w.pending ==> JobFull(j)
  }

  /** A miss stores a 304 exactly when no directive on either side forbids it. */
  lemma MissFullIff(lib: Library, number: nat, req: Request, refs: seq<Ref>, index: int, upstream: Option<Reply>,
                    clock: Freshness.Clock)
    ensures VerdictFull(Miss(lib, number, req, refs, index, upstream, clock)) <==> !BareAdmitted(req, upstream)
  {
    if upstream.Some? {
      var resp := TimedReply(lib, upstream.value, clock.end);
      assert |"Cache-Control"| != |"Date"|;
      assert DirectivesOf(resp.header) == DirectivesOf(upstream.value.header);
      CanStoreCases(resp, DirectivesOf(req.header), DirectivesOf(resp.header));
    }
  }

  /** A validation writes a freshened entry on a 304, and otherwise not a 304. */
  lemma RevalidatedFull(lib: Library, conn: Conn, number: nat, req: Request, stored: Entry, f: Freshness.Freshness,
                        ccReq: CC.Directives, refs: seq<Ref>, index: int, upstream: Option<Reply>,
                        clock: Freshness.Clock, faults: Faults)
    requires req.verb == "GET" && stored.data.status != 304
    ensures VerdictFull(Revalidated(lib, conn, number, req, stored, f, ccReq, refs, index, upstream, clock, faults))
  {
    Provenance.ValidationEffect(lib, conn, number, req, stored, f, ccReq, refs, index, upstream, clock, faults);
  }

  lemma HitFull(lib: Library, conn: Conn, number: nat, req: Request, stored: Entry, refs: seq<Ref>, index: int,
                upstream: Option<Reply>, clock: Freshness.Clock, faults: Faults)
    requires req.verb == "GET" && stored.data.status != 304
    ensures VerdictFull(Hit(lib, conn, number, req, stored, refs, index, upstream, clock, faults))
  {
    var ccReq, ccResp := DirectivesOf(req.header), DirectivesOf(stored.data.header);
    var f := Freshness.Calculate(lib, stored, ccReq, ccResp, clock);
    if RouteOf(f, ccReq, ccResp, clock.swr).Revalidate? {
      RevalidatedFull(lib, conn, number, Conditional(req, stored.data.header), stored, f, ccReq, refs, index, upstream,
                      clock, faults);
    }
  }

  /** A step from a world of full replies writes one that is not exactly when it admits a
      bare 304. */
  lemma StepFullIff(lib: Library, w: World, step: Step)
    requires AllFull(w) && (step.Background? ==> step.job < |w.pending|)
    ensures VerdictFull(VerdictOf(lib, w, step)) <==> !AdmitsBare(lib, w, step)
  {
    match step
    case Background(job, upstream, clock, faults) =>
      var j := w.pending[job];
      assert j in w.pending;
      RevalidatedFull(lib, w.conn, |w.trace|, j.req, j.stored, j.freshness, j.ccReq, [], 0, upstream, clock, faults);
    case Foreground(req, upstream, clock, faults) =>
      if IsUnderstood(req) {
        var l := Find(lib, w.conn, req, faults);
        if l.Found? {
          HitFull(lib, w.conn, |w.trace|, req, l.entry, l.refs, l.index, upstream, clock, faults);
        } else {
          MissFullIff(lib, |w.trace|, req, RefsOf(l), IndexOf(l), upstream, clock);
        }
      }
  }

  lemma ApplyFull(conn: Conn, eff: Effect, faults: Faults)
    requires ConnFull(conn)
    ensures EffectFull(eff) ==> ConnFull(Apply(conn, eff, faults))
    ensures eff.Store? && eff.entry.id != eff.key && faults.unwritable == {} && !EffectFull(eff) ==>
              !ConnFull(Apply(conn, eff, faults))
  {
    var conn' := Apply(conn, eff, faults);
    if eff.Store? && eff.entry.id != eff.key && faults.unwritable == {} {
      assert eff.entry.id in conn' && conn'[eff.entry.id] == Stored(eff.entry);
    }
  }

  /** A bare 304 is stored under a response ID, which no URL key is. */
  lemma BareKey(lib: Library, w: World, step: Step)
    requires AdmitsBare(lib, w, step) && Provenance.WellKeyed(step)
    ensures var eff := VerdictOf(lib, w, step).effect;
            eff.Store? && eff.entry.id != eff.key && !EffectFull(eff)
  {
    var l := Find(lib, w.conn, step.req, step.faults);
    MissFullIff(lib, |w.trace|, step.req, RefsOf(l), IndexOf(l), step.upstream, step.clock);
    var v := Miss(lib, |w.trace|, step.req, RefsOf(l), IndexOf(l), step.upstream, step.clock);
    assert VerdictOf(lib, w, step) == v && v.job.None?;
    var resp := TimedReply(lib, step.upstream.value, step.clock.end);
    var data := resp.(header := EndToEnd(resp.header));
    Vary.VaryKeyHasHash(lib, step.req.url.key, Vary.Resolve(lib, VaryOf(data.header), step.req.header));
  }

  /** One step keeps all replies full unless it admits a bare 304; where the write succeeds, if
      and only if. */
  lemma NextFullIff(lib: Library, w: World, step: Step)
    requires AllFull(w) && Provenance.WellKeyed(step)
    ensures !AdmitsBare(lib, w, step) ==> AllFull(Next(lib, w, step))
    ensures step.faults.unwritable == {} ==> (AllFull(Next(lib, w, step)) <==> !AdmitsBare(lib, w, step))
  {
    if step.Foreground? || step.job < |w.pending| {
      var v := VerdictOf(lib, w, step);
      StepFullIff(lib, w, step);
      ApplyFull(w.conn, v.effect, step.faults);
      if AdmitsBare(lib, w, step) {
        BareKey(lib, w, step);
      }
    }
  }

  /** No step of the run admits a bare 304. */
  predicate NoneAdmits(lib: Library, steps: seq<Step>) {
    forall i :: 0 <= i < |steps| ==> !AdmitsBare(lib, Run(lib, INIT, steps[..i]), steps[i])
  }

  lemma {:induction false} RunFull(lib: Library, steps: seq<Step>)
    requires NoneAdmits(lib, steps)
    requires forall i :: 0 <= i < |steps| ==> Provenance.WellKeyed(steps[i])
    ensures AllFull(Run(lib, INIT, steps))
    decreases |steps|
  {
    if steps != [] {
      var n := |steps| - 1;
      assert forall i :: 0 <= i < n ==> steps[..n][..i] == steps[..i];
      RunFull(lib, steps[..n]);
      NextFullIff(lib, Run(lib, INIT, steps[..n]), steps[n]);
    }
  }

  /** In every run: if no 304 is admitted without an entry to freshen, each lineage starts with a
      full reply, whatever the backend does. */
  lemma OriginsFull(lib: Library, steps: seq<Step>, id: string)
    requires Vary.PermutesRefs(lib) && NoneAdmits(lib, steps)
    requires forall i :: 0 <= i < |steps| ==> Provenance.WellKeyed(steps[i])
    requires var conn := Run(lib, INIT, steps).conn; id in conn && conn[id].Stored?
    ensures var w := Run(lib, INIT, steps);
            var e := w.conn[id].entry;
            Provenance.Indexed(w.trace, e.lineage) && w.trace[e.lineage[0]].reply.status == e.data.status != 304
  {
    var w := Run(lib, INIT, steps);
    RunFull(lib, steps);
    Provenance.RunOk(lib, steps);
    assert Provenance.BlobOk(lib, w.trace, id, w.conn[id]);
  }

  /** In every run with successful writes: all stored replies are full ones after each of its
      steps if and only if no step admits a bare 304. */
  lemma RunFullIff(lib: Library, steps: seq<Step>)
    requires forall i :: 0 <= i < |steps| ==> Provenance.WellKeyed(steps[i]) && steps[i].faults.unwritable == {}
    ensures (forall n :: 0 <= n <= |steps| ==> AllFull(Run(lib, INIT, steps[..n]))) <==> NoneAdmits(lib, steps)
  {
    if NoneAdmits(lib, steps) {
      forall n | 0 <= n <= |steps| ensures AllFull(Run(lib, INIT, steps[..n])) {
        assert forall i :: 0 <= i < n ==> steps[..n][..i] == steps[..i];
        RunFull(lib, steps[..n]);
      }
    } else {
      var i :| 0 <= i < |steps| && AdmitsBare(lib, Run(lib, INIT, steps[..i]), steps[i]);
      if AllFull(Run(lib, INIT, steps[..i])) {
        NextFullIff(lib, Run(lib, INIT, steps[..i]), steps[i]);
        assert steps[..i + 1][..i] == steps[..i];
        assert !AllFull(Run(lib, INIT, steps[..i + 1]));
      }
    }
  }

  /** An input: the very first request, with a precondition of its own, answered 304. */
  lemma BareStored(lib: Library, url: URL, clock: Freshness.Clock)
    requires '#' !in url.key
    ensures var step := Foreground(Request("GET", url, map["If-None-Match" := ["x"]]),
                                   Some(Reply(304, map[], "")), clock, NO_FAULTS);
            !AllFull(Next(lib, INIT, step))
  {
    var step := Foreground(Request("GET", url, map["If-None-Match" := ["x"]]), Some(Reply(304, map[], "")), clock,
                           NO_FAULTS);
    assert "Range"[0] == 'R' && "Cache-Control"[0] == 'C' && "If-None-Match"[0] == 'I';
    assert DirectivesOf(step.req.header) == map[];
    NextFullIff(lib, INIT, step);
  }
}
