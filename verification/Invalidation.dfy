/**
  Invalidation (section 4.4 of RFC 9111): exactly which keys `InvalidateCache` deletes, and
  in which order.
 */
module Invalidation {
  import opened Base
  import opened Http
  import opened Protocol

  /** One of the two location fields has a first line that resolves to a URL of the same origin
      with this key. */
  predicate IsLocation(lib: Library, url: URL, h: Header, key: string) {
    exists field :: field in {"Location", "Content-Location"} && Get(h, field) != "" &&
      lib.resolve(url, Get(h, field)).Some? &&
      SameOrigin(url, lib.resolve(url, Get(h, field)).value) && lib.resolve(url, Get(h, field)).value.key == key
  }

  lemma LocationKeysExact(lib: Library, url: URL, h: Header, key: string)
    ensures key in LocationKeys(lib, url, h) <==> IsLocation(lib, url, h, key)
  {
    assert key in LocationKeys(lib, url, h) <==>
      LocationKey(lib, url, h, "Location") == Some(key) || LocationKey(lib, url, h, "Content-Location") == Some(key);
  }

  predicate Separated(key: string) { '#' !in key }

  /** Response IDs carry a '#', as `makeVaryKey` makes them; URL keys do not. */
  predicate IdsMarked(refs: seq<Ref>) {
    forall i :: 0 <= i < |refs| ==> !Separated(refs[i].id)
  }

  predicate ListsMarked(conn: Conn) {
    forall k :: k in conn && conn[k].Refs? ==> IdsMarked(conn[k].refs)
  }

  predicate AllSeparated(keys: seq<string>) {
    forall i :: 0 <= i < |keys| ==> Separated(keys[i])
  }

  /** The IDs on the list of URL key `x`. */
  function IdsAt(conn: Conn, x: string, faults: Faults): seq<string> {
    Ids(RefsOrNil(conn, x, faults))
  }

  /** Every URL key in `gone` stands after all IDs of its list. */
  predicate IdsFirst(conn: Conn, gone: seq<string>, faults: Faults) {
    forall p, id :: 0 <= p < |gone| && Separated(gone[p]) && id in IdsAt(conn, gone[p], faults) ==> id in gone[..p]
  }

  /** A key whose list was already deleted brings nothing new, so a list read after earlier
      deletions adds the same keys as one read before. */
  lemma ReadAfterDeletions(conn: Conn, gone: seq<string>, x: string, faults: Faults)
    requires Separated(x) && IdsFirst(conn, gone, faults)
    ensures var ids := IdsAt(Without(conn, gone, faults), x, faults);
            (ids == IdsAt(conn, x, faults)) ||
            (ids == [] && forall id :: id in IdsAt(conn, x, faults) ==> id in gone)
  {
    if x in gone {
      var p :| 0 <= p < |gone| && gone[p] == x;
    }
  }

  /** The deletions after the locations: those before, and for each location its IDs and
      itself; and still IDs before keys. */
  lemma {:induction false} LocationTrailExact(conn: Conn, gone: seq<string>, locations: seq<string>, faults: Faults)
    requires ListsMarked(conn) && AllSeparated(locations) && IdsFirst(conn, gone, faults)
    ensures var trail := LocationTrail(conn, gone, locations, faults);
            IdsFirst(conn, trail, faults) &&
            forall k :: k in trail <==>
              k in gone || exists x :: x in locations && (k == x || k in IdsAt(conn, x, faults))
    decreases |locations|
  {
    if locations != [] {
      var x := locations[0];
      assert Separated(x);
      var ids := IdsAt(Without(conn, gone, faults), x, faults);
      var gone' := gone + ids + [x];
      ReadAfterDeletions(conn, gone, x, faults);
      IdsFirstExtends(conn, gone, ids, x, faults);
      LocationTrailExact(conn, gone', locations[1..], faults);
      forall k ensures k in gone' || (exists y :: y in locations[1..] && (k == y || k in IdsAt(conn, y, faults)))
                   <==> k in gone || (exists y :: y in locations && (k == y || k in IdsAt(conn, y, faults)))
      {
        assert k in gone' <==> k in gone || k in ids || k == x;
        assert forall y :: y in locations <==> y == x || y in locations[1..];
      }
    }
  }

  lemma IdsFirstExtends(conn: Conn, gone: seq<string>, ids: seq<string>, x: string, faults: Faults)
    requires IdsFirst(conn, gone, faults) && Separated(x)
    requires forall i :: 0 <= i < |ids| ==> !Separated(ids[i])
    requires forall id :: id in IdsAt(conn, x, faults) ==> id in gone || id in ids
    ensures IdsFirst(conn, gone + ids + [x], faults)
  {
    var gone' := gone + ids + [x];
    forall p, id | 0 <= p < |gone'| && Separated(gone'[p]) && id in IdsAt(conn, gone'[p], faults)
      ensures id in gone'[..p]
    {
      if p < |gone| {
        assert gone'[..p] == gone[..p];
      } else {
        assert p == |gone'| - 1;
        assert gone'[..p] == gone + ids;
      }
    }
  }

  /** The keys an invalidation removes are exactly the target, the same-origin locations and
      the IDs on their lists, and at every point of the deletion sequence a URL key goes only
      after all IDs of its list. */
  lemma TrailExact(lib: Library, conn: Conn, url: URL, h: Header, faults: Faults)
    requires ListsMarked(conn) && Separated(url.key) && AllSeparated(LocationKeys(lib, url, h))
    ensures var trail := Trail(lib, conn, url, h, RefsOrNil(conn, url.key, faults), faults);
            IdsFirst(conn, trail, faults) &&
            forall k :: k in trail <==>
              exists x :: (x == url.key || x in LocationKeys(lib, url, h)) && (k == x || k in IdsAt(conn, x, faults))
  {
    var locations := LocationKeys(lib, url, h);
    var ids := IdsAt(conn, url.key, faults);
    LocationTrailExact(conn, ids, locations, faults);
    var most := LocationTrail(conn, ids, locations, faults);
    var trail := Trail(lib, conn, url, h, RefsOrNil(conn, url.key, faults), faults);
    IdsFirstExtends(conn, most, [], url.key, faults);
    assert trail == most + [] + [url.key];
    forall k ensures k in trail <==>
      exists x :: (x == url.key || x in locations) && (k == x || k in IdsAt(conn, x, faults))
    {
      assert k in trail <==> k in most || k == url.key;
    }
  }

  // ----- Each key once -----

  /** The first occurrences, in order: the deletions the closure `del` lets through. */
  function Distinct(s: seq<string>): (r: seq<string>)
    ensures forall k :: k in r <==> k in s
  {
    if s == [] then []
    else
      var n := |s| - 1;
      if s[n] in s[..n] then Distinct(s[..n]) else Distinct(s[..n]) + [s[n]]
  }

  lemma {:induction false} DistinctOnce(s: seq<string>)
    ensures forall i, j :: 0 <= i < j < |Distinct(s)| ==> Distinct(s)[i] != Distinct(s)[j]
  {
    if s != [] {
      var n := |s| - 1;
      DistinctOnce(s[..n]);
      assert forall k :: k in Distinct(s[..n]) <==> k in s[..n];
    }
  }

  /** Leaving out repetitions keeps IDs before keys. */
  lemma {:induction false} DistinctIdsFirst(conn: Conn, s: seq<string>, faults: Faults)
    requires IdsFirst(conn, s, faults)
    ensures IdsFirst(conn, Distinct(s), faults)
  {
    if s != [] {
      var n := |s| - 1;
      var d, d' := Distinct(s[..n]), Distinct(s);
      assert IdsFirst(conn, s[..n], faults) by {
        assert forall p :: 0 <= p < n ==> s[..n][..p] == s[..p];
      }
      DistinctIdsFirst(conn, s[..n], faults);
      forall p, id | 0 <= p < |d'| && Separated(d'[p]) && id in IdsAt(conn, d'[p], faults) ensures id in d'[..p] {
        if p < |d| {
          assert d'[..p] == d[..p];
        } else {
          assert d'[p] == s[n] && d'[..p] == d;
          assert id in s[..n];
        }
      }
    }
  }

  /** The deletions an invalidation issues: each key once, exactly the target, the same-origin
      locations and the IDs on their lists, and every URL key after all IDs of its list. */
  lemma DeletionsExact(lib: Library, conn: Conn, url: URL, h: Header, faults: Faults)
    requires ListsMarked(conn) && Separated(url.key) && AllSeparated(LocationKeys(lib, url, h))
    ensures var calls := Distinct(Trail(lib, conn, url, h, RefsOrNil(conn, url.key, faults), faults));
            && (forall i, j :: 0 <= i < j < |calls| ==> calls[i] != calls[j])
            && IdsFirst(conn, calls, faults)
            && forall k :: k in calls <==>
                 exists x :: (x == url.key || IsLocation(lib, url, h, x)) && (k == x || k in IdsAt(conn, x, faults))
  {
    forall x ensures x in LocationKeys(lib, url, h) <==> IsLocation(lib, url, h, x) {
      LocationKeysExact(lib, url, h, x);
    }
    var trail := Trail(lib, conn, url, h, RefsOrNil(conn, url.key, faults), faults);
    TrailExact(lib, conn, url, h, faults);
    DistinctOnce(trail);
    DistinctIdsFirst(conn, trail, faults);
  }
}
