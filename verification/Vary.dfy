/**
  Selecting a stored response by the request fields its Vary nominates (section 4.1 of
  RFC 9111): `internal/varymatcher.go`, and the key part of `internal/normalization.go`.
 */
module Vary {
  import opened Base
  import opened Http
  import Csv
  import Ordering

  // ----- Resolving a Vary list against a request -----

  /** The normalized first line of a request field, "" when the field is absent. */
  function Normalized(lib: Library, h: Header, field: string): string {
    if Values(h, field) == [] then "" else lib.normalizeValue(field, h[field][0])
  }

  /** The nominated names, canonical, in order. */
  function Nominated(vary: string): seq<string> {
    var parts := Csv.Split(vary);
    seq(|parts|, i requires 0 <= i < |parts| => CanonicalKey(parts[i]))
  }

  function Resolve(lib: Library, vary: string, h: Header): map<string, string> {
    map f | f in Nominated(vary) :: Normalized(lib, h, f)
  }

  lemma ResolveOne(lib: Library, names: seq<string>, h: Header, i: nat)
    requires i < |names|
    ensures (map f | f in names[..i + 1] :: Normalized(lib, h, f))
            == (map f | f in names[..i] :: Normalized(lib, h, f))[names[i] := Normalized(lib, h, names[i])]
  {
    assert names[..i + 1] == names[..i] + [names[i]];
  }

  /** `normalizedVaryHeader` collected into a map, name by name. */
  method NormalizeVaryHeader(lib: Library, vary: string, h: Header) returns (resolved: map<string, string>)
    ensures resolved == Resolve(lib, vary, h)
  {
    var names := Nominated(vary);
    resolved := map[];
    for i := 0 to |names|
      invariant resolved == map f | f in names[..i] :: Normalized(lib, h, f)
    {
      ResolveOne(lib, names, h, i);
      var value := "";
      if Values(h, names[i]) != [] {
        value := lib.normalizeValue(names[i], h[names[i]][0]);
      }
      resolved := resolved[names[i] := value];
    }
    assert names[..|names|] == names;
  }

  /** `makeVaryKey` */
  function VaryKey(lib: Library, urlKey: string, resolved: map<string, string>): string {
    urlKey + "#" + (if resolved == map[] then "0" else Decimal(lib.varyHash(resolved)))
  }

  /** An entry key names its URL key: the text before the first '#'. */
  lemma VaryKeyInjective(lib: Library, u: string, m: map<string, string>, v: string, n: map<string, string>)
    requires '#' !in u && '#' !in v
    requires VaryKey(lib, u, m) == VaryKey(lib, v, n)
    ensures u == v
  {
    var a, b := VaryKey(lib, u, m), VaryKey(lib, v, n);
    assert a[|u|] == '#' && b[|v|] == '#';
    assert |u| == |v|;
    assert a[..|u|] == u && b[..|v|] == v;
  }

  lemma VaryKeyHasHash(lib: Library, u: string, m: map<string, string>)
    ensures '#' in VaryKey(lib, u, m)
  {
    assert VaryKey(lib, u, m)[|u|] == '#';
  }

  /** What the Vary lines of a header nominate, when none leaves a quote open: the canonical name of
      every element of every line, and nothing else. */
  lemma NominatedByLines(h: Header, f: string)
    requires forall line :: line in Values(h, "Vary") ==> Csv.Closed(line)
    ensures f in Nominated(VaryOf(h)) <==>
            exists line, part :: line in Values(h, "Vary") && part in Csv.Split(line) && f == CanonicalKey(part)
  {
    var lines := Values(h, "Vary");
    var parts := Csv.Split(VaryOf(h));
    assert forall i :: 0 <= i < |lines| ==> Csv.Closed(lines[i]);
    Csv.SplitLines(lines);
    if f in Nominated(VaryOf(h)) {
      var i :| 0 <= i < |parts| && f == CanonicalKey(parts[i]);
      Csv.SplitAllHas(lines, parts[i]);
      var k :| 0 <= k < |lines| && parts[i] in Csv.Split(lines[k]);
      assert lines[k] in lines;
    }
    if exists line, part :: line in lines && part in Csv.Split(line) && f == CanonicalKey(part) {
      var line, part :| line in lines && part in Csv.Split(line) && f == CanonicalKey(part);
      Csv.SplitAllHas(lines, part);
      var i :| 0 <= i < |parts| && parts[i] == part;
      assert Nominated(VaryOf(h))[i] == f;
    }
  }

  /** The text of an entry key. */
  lemma VaryKeyText(lib: Library, u: string, m: map<string, string>)
    ensures VaryKey(lib, u, map[]) == u + "#0"
    ensures m != map[] ==> VaryKey(lib, u, m) == u + "#" + Decimal(lib.varyHash(m))
  {
    assert u + "#" + "0" == u + "#0";
  }

  // ----- Matching -----

  /** `varyHeadersMatchOne`: only a Vary of exactly "*" never matches. */
  predicate Matches(lib: Library, ref: Ref, h: Header) {
    ref.vary != "*" && forall f :: f in ref.resolved ==> Normalized(lib, h, f) == ref.resolved[f]
  }

  method VaryHeadersMatchOne(lib: Library, ref: Ref, h: Header) returns (ok: bool)
    ensures ok <==> Matches(lib, ref, h)
  {
    if ref.vary == "*" {
      return false;
    }
    var todo := ref.resolved.Keys;
    while todo != {}
      invariant todo <= ref.resolved.Keys
      invariant forall f :: f in ref.resolved && f !in todo ==> Normalized(lib, h, f) == ref.resolved[f]
      decreases |todo|
    {
      var field :| field in todo;
      if Normalized(lib, h, field) != ref.resolved[field] {
        return false;
      }
      todo := todo - {field};
    }
    return true;
  }

  /** A ref made for request header `h` matches a request exactly when both agree, after
      normalization, on every nominated field, unless its Vary is exactly "*"; in particular
      the request it was made for matches it. */
  lemma MatchMeansAgreement(lib: Library, ref: Ref, h: Header, h': Header)
    requires ref.resolved == Resolve(lib, ref.vary, h)
    ensures Matches(lib, ref, h') <==>
            ref.vary != "*" && forall f :: f in Nominated(ref.vary) ==> Normalized(lib, h', f) == Normalized(lib, h, f)
    ensures Matches(lib, ref, h) <==> ref.vary != "*"
  {
    forall f | f in Nominated(ref.vary) ensures f in ref.resolved && ref.resolved[f] == Normalized(lib, h, f) {
    }
  }

  // ----- Ranking -----

  /** The comparator `VaryHeadersMatch` sorts by. */
  function Compare(a: Ref, b: Ref): int {
    var aVary, bVary := DropBlanks(a.vary), DropBlanks(b.vary);
    if aVary == "*" && bVary != "*" then 1
    else if bVary == "*" && aVary != "*" then -1
    else if aVary != "" && bVary == "" then -1
    else if aVary == "" && bVary != "" then 1
    else if a.receivedAt < b.receivedAt then -1
    else if a.receivedAt > b.receivedAt then 1
    else 0
  }

  /** Refs with a Vary come first, then those without, then "*"; the earliest first in each. */
  function Class(r: Ref): nat {
    if DropBlanks(r.vary) == "*" then 2 else if DropBlanks(r.vary) == "" then 1 else 0
  }

  lemma CompareIsRank(a: Ref, b: Ref)
    ensures Compare(a, b) < 0 <==> Class(a) < Class(b) || (Class(a) == Class(b) && a.receivedAt < b.receivedAt)
    ensures Compare(a, b) == 0 <==> Class(a) == Class(b) && a.receivedAt == b.receivedAt
    ensures Compare(a, b) == -Compare(b, a)
  {
  }

  /** The comparator is a strict weak order, so a sort by it is well defined. */
  lemma CompareOrder(a: Ref, b: Ref, c: Ref)
    ensures Compare(a, a) == 0
    ensures Compare(a, b) < 0 && Compare(b, c) < 0 ==> Compare(a, c) < 0
    ensures Compare(a, b) == 0 && Compare(b, c) == 0 ==> Compare(a, c) == 0
    ensures Compare(a, b) <= 0 && Compare(b, c) <= 0 ==> Compare(a, c) <= 0
  {
    CompareIsRank(a, b);
    CompareIsRank(b, c);
    CompareIsRank(a, c);
  }

  predicate Sorted(refs: seq<Ref>) {
    Ordering.Sorted(Compare, refs)
  }

  /** What `slices.SortFunc` promises; it need not be stable. */
  ghost predicate SortsRefs(lib: Library) {
    Ordering.Sorts(Compare, lib.sortRefs)
  }

  /** The part of that promise most properties need: no ref appears or disappears. */
  ghost predicate PermutesRefs(lib: Library) {
    forall refs :: multiset(lib.sortRefs(refs)) == multiset(refs)
  }

  /** Index of the first match, or the length. */
  function FirstMatch(lib: Library, refs: seq<Ref>, h: Header): (i: nat)
    ensures i <= |refs|
    ensures i < |refs| ==> Matches(lib, refs[i], h)
    ensures forall j :: 0 <= j < i ==> !Matches(lib, refs[j], h)
  {
    if refs == [] || Matches(lib, refs[0], h) then 0 else 1 + FirstMatch(lib, refs[1..], h)
  }

  /** `VaryHeadersMatch`: sorts the slice in place, then scans for the first match. */
  method VaryHeadersMatch(lib: Library, entries: array<Ref>, h: Header) returns (index: int, found: bool)
    requires PermutesRefs(lib)
    modifies entries
    ensures entries[..] == lib.sortRefs(old(entries[..]))
    ensures multiset(entries[..]) == multiset(old(entries[..]))
    ensures found <==> exists r :: r in old(entries[..]) && Matches(lib, r, h)
    ensures found ==> 0 <= index < entries.Length && index == FirstMatch(lib, entries[..], h)
    ensures found ==> Matches(lib, entries[index], h)
    ensures found && SortsRefs(lib) ==>
              forall r :: r in old(entries[..]) && Matches(lib, r, h) ==> Compare(entries[index], r) <= 0
    ensures !found ==> index == -1
  {
    var sorted := lib.sortRefs(entries[..]);
    SamePermutation(entries[..], sorted);
    forall i | 0 <= i < entries.Length {
      entries[i] := sorted[i];
    }
    assert entries[..] == sorted;
    for i := 0 to entries.Length
      invariant entries[..] == sorted
      invariant forall j :: 0 <= j < i ==> !Matches(lib, sorted[j], h)
    {
      var ok := VaryHeadersMatchOne(lib, entries[i], h);
      if ok {
        FirstMatchAt(lib, sorted, h, i);
        if SortsRefs(lib) {
          BestMatch(lib, sorted, h, i);
        }
        return i, true;
      }
    }
    return -1, false;
  }

  lemma SamePermutation(refs: seq<Ref>, sorted: seq<Ref>)
    requires multiset(sorted) == multiset(refs)
    ensures |sorted| == |refs|
    ensures forall r :: r in refs <==> r in sorted
  {
    assert |multiset(refs)| == |refs| && |multiset(sorted)| == |sorted|;
    forall r ensures r in refs <==> r in sorted {
      assert r in multiset(refs) <==> r in multiset(sorted);
    }
  }

  lemma FirstMatchAt(lib: Library, refs: seq<Ref>, h: Header, i: nat)
    requires i < |refs| && Matches(lib, refs[i], h)
    requires forall j :: 0 <= j < i ==> !Matches(lib, refs[j], h)
    ensures FirstMatch(lib, refs, h) == i
  {
  }

  /** The first match of a sorted list is a best one: no matching ref ranks before it. */
  lemma BestMatch(lib: Library, sorted: seq<Ref>, h: Header, i: nat)
    requires Sorted(sorted) && i < |sorted| && Matches(lib, sorted[i], h)
    requires forall j :: 0 <= j < i ==> !Matches(lib, sorted[j], h)
    ensures FirstMatch(lib, sorted, h) == i
    ensures forall r :: r in sorted && Matches(lib, r, h) ==> Compare(sorted[i], r) <= 0
  {
    forall r | r in sorted && Matches(lib, r, h) ensures Compare(sorted[i], r) <= 0 {
      var j :| 0 <= j < |sorted| && sorted[j] == r;
      CompareOrder(r, r, r);
    }
  }

  /** Of two matching refs of the same class the one with the earlier Date is selected,
      where section 4.1 of RFC 9111 asks for the most recent. */
  lemma EarliestPreferred(lib: Library, refs: seq<Ref>, h: Header, r: Ref)
    requires SortsRefs(lib)
    requires r in refs && Matches(lib, r, h)
    ensures var sorted := lib.sortRefs(refs);
            var i := FirstMatch(lib, sorted, h);
            i < |sorted| && (Class(sorted[i]) == Class(r) ==> sorted[i].receivedAt <= r.receivedAt)
  {
    var sorted := lib.sortRefs(refs);
    SamePermutation(refs, sorted);
    var i := FirstMatch(lib, sorted, h);
    assert r in sorted;
    BestMatch(lib, sorted, h, i);
    CompareIsRank(sorted[i], r);
  }

  /** The ref was received no earlier than any ref that matches. */
  predicate MostRecent(lib: Library, refs: seq<Ref>, h: Header, r: Ref) {
    forall s :: s in refs && Matches(lib, s, h) ==> s.receivedAt <= r.receivedAt
  }

  /** No matching ref is of a lower class. */
  predicate LeastClass(lib: Library, refs: seq<Ref>, h: Header, r: Ref) {
    forall s :: s in refs && Matches(lib, s, h) ==> Class(r) <= Class(s)
  }

  /** The most recent match is selected, as section 4.1 of RFC 9111 asks, if and only if every
      match of the least class there is is as recent as any match. */
  lemma MostRecentIff(lib: Library, refs: seq<Ref>, h: Header)
    requires SortsRefs(lib) && exists r :: r in refs && Matches(lib, r, h)
    ensures var sorted := lib.sortRefs(refs);
            var i := FirstMatch(lib, sorted, h);
            i < |sorted| &&
            (MostRecent(lib, refs, h, sorted[i]) <==>
               forall r :: r in refs && Matches(lib, r, h) && LeastClass(lib, refs, h, r) ==>
                 MostRecent(lib, refs, h, r))
  {
    var sorted := lib.sortRefs(refs);
    var i := FirstMatch(lib, sorted, h);
    var some :| some in refs && Matches(lib, some, h);
    EarliestPreferred(lib, refs, h, some);
    SamePermutation(refs, sorted);
    assert sorted[i] in sorted;
    forall s | s in refs && Matches(lib, s, h) ensures Class(sorted[i]) <= Class(s) {
      BestMatch(lib, sorted, h, i);
      CompareIsRank(sorted[i], s);
    }
    forall r | r in refs && Matches(lib, r, h) && LeastClass(lib, refs, h, r)
      ensures sorted[i].receivedAt <= r.receivedAt
    {
      EarliestPreferred(lib, refs, h, r);
    }
  }
}
