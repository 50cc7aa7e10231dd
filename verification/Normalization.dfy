/**
  Canonical forms of request field values: the order-insensitive and the quality-value
  normalizers of `internal/normalization.go`, and the text its Vary hash reads.

  Quality values are exact numbers here; `parse` and `format` stand for the floating-point
  conversions of the standard library. Sorting is any correct sort, not a particular one.
 */
module Normalization {
  import opened Base
  import opened Ordering
  import Csv

  // ----- Quality values -----

  datatype Quality = Quality(main: string, q: real, params: seq<string>)

  const MAX_Q: real := 1.0
  const MIN_Q: real := 0.001

  function Clamp(q: real): real {
    if q > MAX_Q then MAX_Q else if q < MIN_Q then MIN_Q else q
  }

  /** `strings.SplitSeq` on ';', each piece trimmed. */
  function SplitParams(s: string): seq<string>
    decreases |s|
  {
    var i := FirstIndex(s, ';');
    if i < |s| then [DropBlanks(s[..i])] + SplitParams(s[i + 1..]) else [DropBlanks(s)]
  }

  predicate IsQ(param: string) {
    |param| > 2 && param[0] in {'q', 'Q'} && param[1] == '='
  }

  /** Reads the parameters in order; None when one of them is a q of 0. The last q that
      parses counts. */
  function ReadParams(parse: string -> Option<real>, params: seq<string>, q: real, kept: seq<string>)
    : Option<(real, seq<string>)>
    decreases |params|
  {
    if params == [] then Some((q, kept))
    else
      var p := params[0];
      if IsQ(p) then
        if p[2..] == "0" || p[2..] == "0.0" then None
        else ReadParams(parse, params[1..], if parse(p[2..]).Some? then Clamp(parse(p[2..]).value) else q, kept)
      else ReadParams(parse, params[1..], q, if p == "" then kept else kept + [p])
  }

  /** One list element; None when it is dropped for q=0. */
  function ReadPart(parse: string -> Option<real>, sort: seq<string> -> seq<string>, part: string): Option<Quality> {
    var i := FirstIndex(part, ';');
    if i == |part| then Some(Quality(part, MAX_Q, []))
    else
      match ReadParams(parse, SplitParams(part[i + 1..]), MAX_Q, [])
      case None => None
      case Some((q, params)) => Some(Quality(part[..i], q, sort(params)))
  }

  function ReadParts(parse: string -> Option<real>, sort: seq<string> -> seq<string>,
                     parts: seq<string>): seq<Quality> {
    if parts == [] then []
    else
      match ReadPart(parse, sort, parts[0])
      case None => ReadParts(parse, sort, parts[1..])
      case Some(v) => [v] + ReadParts(parse, sort, parts[1..])
  }

  // ----- The five-key comparator -----

  function Wildcards(s: string): nat {
    if s == "" then 0 else (if s[0] == '*' then 1 else 0) + Wildcards(s[1..])
  }

  const DESCENDING: (real, real) -> int := (x: real, y: real) => if x > y then -1 else if x < y then 1 else 0
  const BY_Q: (Quality, Quality) -> int := (a: Quality, b: Quality) => DESCENDING(a.q, b.q)
  const BY_INT: (int, int) -> int := (x: int, y: int) => if x < y then -1 else if x > y then 1 else 0
  const BY_WILDCARDS: (Quality, Quality) -> int := (a: Quality, b: Quality) =>
    BY_INT(Wildcards(a.main), Wildcards(b.main))
  const BY_MAIN: (Quality, Quality) -> int := (a: Quality, b: Quality) => CompareStrings(a.main, b.main)
  const BY_COUNT: (Quality, Quality) -> int := (a: Quality, b: Quality) => BY_INT(-|a.params|, -|b.params|)
  const BY_PARAMS: (Quality, Quality) -> int := (a: Quality, b: Quality) => CompareLists(a.params, b.params)

  /** By quality, then fewer wildcards, then main value, then more parameters, then parameters. */
  const COMPARE: (Quality, Quality) -> int :=
    Or(BY_Q, Or(BY_WILDCARDS, Or(BY_MAIN, Or(BY_COUNT, BY_PARAMS))))

  lemma QPreorder()
    ensures TotalPreorder(BY_Q)
  {
    assert TotalOrder(DESCENDING);
    var key := (a: Quality) => a.q;
    KeyPreorder(key, DESCENDING);
    var cmp := (a: Quality, b: Quality) => DESCENDING(key(a), key(b));
    assert forall a, b :: BY_Q(a, b) == cmp(a, b);
  }

  lemma WildcardsPreorder()
    ensures TotalPreorder(BY_WILDCARDS)
  {
    assert TotalOrder(BY_INT);
    var key := (a: Quality) => Wildcards(a.main) as int;
    KeyPreorder(key, BY_INT);
    var cmp := (a: Quality, b: Quality) => BY_INT(key(a), key(b));
    assert forall a, b :: BY_WILDCARDS(a, b) == cmp(a, b);
  }

  lemma CountPreorder()
    ensures TotalPreorder(BY_COUNT)
  {
    assert TotalOrder(BY_INT);
    var key := (a: Quality) => -|a.params|;
    KeyPreorder(key, BY_INT);
    var cmp := (a: Quality, b: Quality) => BY_INT(key(a), key(b));
    assert forall a, b :: BY_COUNT(a, b) == cmp(a, b);
  }

  lemma MainPreorder()
    ensures TotalPreorder(BY_MAIN)
  {
    StringsTotal();
    var key := (a: Quality) => a.main;
    KeyPreorder(key, CompareStrings);
    var cmp := (a: Quality, b: Quality) => CompareStrings(key(a), key(b));
    assert forall a, b :: BY_MAIN(a, b) == cmp(a, b);
  }

  lemma ParamsPreorder()
    ensures TotalPreorder(BY_PARAMS)
    ensures forall a, b :: BY_PARAMS(a, b) == 0 <==> a.params == b.params
  {
    StringsTotal();
    forall a: Quality, b: Quality
      ensures (BY_PARAMS(a, b) == 0 <==> a.params == b.params) && (BY_PARAMS(a, b) < 0 <==> BY_PARAMS(b, a) > 0)
    {
      LexEqual(CompareStrings, a.params, b.params);
    }
    forall a: Quality, b: Quality, c: Quality | BY_PARAMS(a, b) <= 0 && BY_PARAMS(b, c) <= 0
      ensures BY_PARAMS(a, c) <= 0
    {
      LexTransitive(CompareStrings, a.params, b.params, c.params);
    }
  }

  lemma OrFive(a: (Quality, Quality) -> int, b: (Quality, Quality) -> int, c: (Quality, Quality) -> int,
               d: (Quality, Quality) -> int, e: (Quality, Quality) -> int)
    requires TotalPreorder(a) && TotalPreorder(b) && TotalPreorder(c) && TotalPreorder(d) && TotalPreorder(e)
    ensures TotalPreorder(Or(a, Or(b, Or(c, Or(d, e)))))
  {
    OrPreorder(d, e);
    OrPreorder(c, Or(d, e));
    OrPreorder(b, Or(c, Or(d, e)));
    OrPreorder(a, Or(b, Or(c, Or(d, e))));
  }

  /** The comparator is a total order: what ties is identical. */
  lemma CompareTotal()
    ensures TotalOrder(COMPARE)
  {
    QPreorder();
    WildcardsPreorder();
    CountPreorder();
    MainPreorder();
    ParamsPreorder();
    OrFive(BY_Q, BY_WILDCARDS, BY_MAIN, BY_COUNT, BY_PARAMS);
    forall a: Quality, b: Quality ensures COMPARE(a, b) == 0 <==> a == b {
      TiesIdentical(a, b);
    }
  }

  lemma TiesIdentical(a: Quality, b: Quality)
    ensures COMPARE(a, b) == 0 <==> a == b
  {
    StringsTotal();
    ParamsPreorder();
  }

  // ----- Compaction and printing -----

  /** `slices.CompactFunc` on the main value: only a neighbour's duplicate goes. */
  function Compact(s: seq<Quality>): (r: seq<Quality>)
    ensures forall v :: v in r ==> v in s
  {
    if s == [] then []
    else
      var n := |s| - 1;
      Compact(s[..n]) + (if n > 0 && s[n].main == s[n - 1].main then [] else [s[n]])
  }

  function PrintParams(params: seq<string>): string {
    if params == [] then "" else ";" + params[0] + PrintParams(params[1..])
  }

  function PrintOne(format: real -> string, v: Quality): string {
    v.main + PrintParams(v.params) + (if v.q != MAX_Q then ";q=" + format(v.q) else "")
  }

  function PrintAll(format: real -> string, vs: seq<Quality>): string {
    if vs == [] then ""
    else if |vs| == 1 then PrintOne(format, vs[0])
    else PrintAll(format, vs[..|vs| - 1]) + "," + PrintOne(format, vs[|vs| - 1])
  }

  /** `normalizeOrderInsensitiveWithQValues`, for the sorts it is given. */
  function NormalizeQ(parse: string -> Option<real>, format: real -> string, sort: seq<string> -> seq<string>,
                      sortQ: seq<Quality> -> seq<Quality>, value: string): string
  {
    PrintAll(format, Compact(sortQ(ReadParts(parse, sort, Csv.Split(value)))))
  }

  /** The inner loop over the parameters of one element. */
  method ReadParamsLoop(parse: string -> Option<real>,
                        params: seq<string>) returns (result: Option<(real, seq<string>)>)
    ensures result == ReadParams(parse, params, MAX_Q, [])
  {
    var q, kept := MAX_Q, [];
    for i := 0 to |params|
      invariant ReadParams(parse, params, MAX_Q, []) == ReadParams(parse, params[i..], q, kept)
    {
      assert params[i..][1..] == params[i + 1..];
      var p := params[i];
      if IsQ(p) {
        if p[2..] == "0" || p[2..] == "0.0" {
          return None;
        }
        var parsed := parse(p[2..]);
        if parsed.Some? {
          q := Clamp(parsed.value);
        }
      } else if p != "" {
        kept := kept + [p];
      }
    }
    assert params[|params|..] == [];
    return Some((q, kept));
  }

  lemma {:induction false} ReadPartsAppend(parse: string -> Option<real>, sort: seq<string> -> seq<string>,
                                           s: seq<string>, t: seq<string>)
    ensures ReadParts(parse, sort, s + t) == ReadParts(parse, sort, s) + ReadParts(parse, sort, t)
  {
    if s == [] {
      assert s + t == t;
    } else {
      assert (s + t)[1..] == s[1..] + t;
      ReadPartsAppend(parse, sort, s[1..], t);
    }
  }

  method ReadOne(parse: string -> Option<real>, sort: seq<string> -> seq<string>, part: string)
    returns (v: Option<Quality>)
    ensures v == ReadPart(parse, sort, part)
  {
    var at := FirstIndex(part, ';');
    if at == |part| {
      return Some(Quality(part, MAX_Q, []));
    }
    var params := ReadParamsLoop(parse, SplitParams(part[at + 1..]));
    match params
    case None => v := None;
    case Some((q, kept)) => v := Some(Quality(part[..at], q, sort(kept)));
  }

  lemma ReadPartsNext(parse: string -> Option<real>, sort: seq<string> -> seq<string>, parts: seq<string>, i: nat)
    requires i < |parts|
    ensures var v := ReadPart(parse, sort, parts[i]);
            ReadParts(parse, sort, parts[..i + 1])
            == ReadParts(parse, sort, parts[..i]) + (if v.Some? then [v.value] else [])
  {
    ReadPartsAppend(parse, sort, parts[..i], [parts[i]]);
    assert parts[..i] + [parts[i]] == parts[..i + 1];
    assert [parts[i]][1..] == [];
  }

  /** The outer loop: every element that is not dropped, in order. */
  method ReadPartsLoop(parse: string -> Option<real>, sort: seq<string> -> seq<string>, parts: seq<string>)
    returns (read: seq<Quality>)
    ensures read == ReadParts(parse, sort, parts)
  {
    read := [];
    for i := 0 to |parts|
      invariant read == ReadParts(parse, sort, parts[..i])
    {
      var v := ReadOne(parse, sort, parts[i]);
      ReadPartsNext(parse, sort, parts, i);
      if v.Some? {
        read := read + [v.value];
      }
    }
    assert parts[..|parts|] == parts;
  }

  /** The loop that fills the builder. */
  method PrintLoop(format: real -> string, ranked: seq<Quality>) returns (r: string)
    ensures r == PrintAll(format, ranked)
  {
    r := "";
    for i := 0 to |ranked|
      invariant r == PrintAll(format, ranked[..i])
    {
      assert ranked[..i + 1][..i] == ranked[..i];
      if i > 0 {
        r := r + ",";
      }
      r := r + PrintOne(format, ranked[i]);
    }
    assert ranked[..|ranked|] == ranked;
  }

  method NormalizeOrderInsensitiveWithQValues(
    parse: string -> Option<real>, format: real -> string, sort: seq<string> -> seq<string>,
    sortQ: seq<Quality> -> seq<Quality>, value: string) returns (r: string)
    ensures r == NormalizeQ(parse, format, sort, sortQ, value)
  {
    var parts := Csv.TrimmedCSV(value);
    var read := ReadPartsLoop(parse, sort, parts);
    r := PrintLoop(format, Compact(sortQ(read)));
  }

  // ----- Canonical form -----

  lemma WithoutFirst<T>(s: seq<T>, t: seq<T>, i: nat)
    requires s != [] && multiset(s) == multiset(t) && i < |t| && t[i] == s[0]
    ensures multiset(s[1..]) == multiset(t[..i] + t[i + 1..])
  {
    assert s == [s[0]] + s[1..] && t == t[..i] + [t[i]] + t[i + 1..];
    assert multiset(s) == multiset{s[0]} + multiset(s[1..]);
    assert multiset(t) == multiset(t[..i]) + multiset{t[i]} + multiset(t[i + 1..]);
    assert multiset(t[..i] + t[i + 1..]) == multiset(t) - multiset{t[i]};
  }

  /** Reading commutes with permuting the elements. */
  lemma {:induction false} ReadPermuted(parse: string -> Option<real>, sort: seq<string> -> seq<string>, s: seq<string>,
                                        t: seq<string>)
    requires multiset(s) == multiset(t)
    ensures multiset(ReadParts(parse, sort, s)) == multiset(ReadParts(parse, sort, t))
  {
    assert |s| == |multiset(s)| && |t| == |multiset(t)|;
    if s != [] {
      assert s[0] in multiset(t);
      var i :| 0 <= i < |t| && t[i] == s[0];
      var before, after := t[..i], t[i + 1..];
      assert t == before + [s[0]] + after;
      WithoutFirst(s, t, i);
      ReadPermuted(parse, sort, s[1..], before + after);
      ReadPartsAppend(parse, sort, [s[0]], s[1..]);
      ReadPartsAppend(parse, sort, before, after);
      ReadPartsAppend(parse, sort, before + [s[0]], after);
      ReadPartsAppend(parse, sort, before, [s[0]]);
    }
  }

  /** Permuting the elements of the list never changes the normal form, whichever correct
      sorts, stable or not, are used. */
  lemma QValuesCanonical(parse: string -> Option<real>, format: real -> string, sort: seq<string> -> seq<string>,
                         sortQ: seq<Quality> -> seq<Quality>, sortQ': seq<Quality> -> seq<Quality>, v: string,
                         w: string)
    requires Sorts(COMPARE, sortQ) && Sorts(COMPARE, sortQ')
    requires multiset(Csv.Split(v)) == multiset(Csv.Split(w))
    ensures NormalizeQ(parse, format, sort, sortQ, v) == NormalizeQ(parse, format, sort, sortQ', w)
  {
    var s, t := ReadParts(parse, sort, Csv.Split(v)), ReadParts(parse, sort, Csv.Split(w));
    ReadPermuted(parse, sort, Csv.Split(v), Csv.Split(w));
    CompareTotal();
    assert SortOf(COMPARE, sortQ(s), s) && SortOf(COMPARE, sortQ'(t), t);
    SortedUnique(COMPARE, sortQ(s), sortQ'(t));
  }

  predicate SameValue(a: Quality, b: Quality) {
    a.q == b.q && a.main == b.main
  }

  /** Between two records with the same quality and main value all have them. */
  lemma Between(a: Quality, b: Quality, c: Quality)
    requires COMPARE(a, b) <= 0 && COMPARE(b, c) <= 0 && SameValue(a, c)
    ensures SameValue(a, b)
  {
    StringsTotal();
    assert BY_Q(a, b) <= 0 && BY_Q(b, c) <= 0;
    assert a.q == b.q;
    assert BY_WILDCARDS(a, b) <= 0 && BY_WILDCARDS(b, c) <= 0;
    assert CompareStrings(a.main, b.main) <= 0 && CompareStrings(b.main, c.main) <= 0;
    assert CompareStrings(b.main, a.main) <= 0;
  }

  /** After sorting and compaction each (quality, main value) pair is there at most once. */
  lemma {:induction false} PairsOnce(s: seq<Quality>)
    requires Sorted(COMPARE, s)
    ensures forall i, j :: 0 <= i < j < |Compact(s)| ==> !SameValue(Compact(s)[i], Compact(s)[j])
  {
    if s != [] {
      var n := |s| - 1;
      PairsOnce(s[..n]);
      if n > 0 && s[n].main != s[n - 1].main {
        forall v | v in Compact(s[..n]) ensures !SameValue(v, s[n]) {
          assert v in s[..n];
          var k :| 0 <= k < n && s[k] == v;
          if SameValue(v, s[n]) && k < n - 1 {
            Between(s[k], s[n - 1], s[n]);
          }
        }
      }
    }
  }

  /** Equal main values are neighbours in the sorted list. */
  predicate Grouped(s: seq<Quality>) {
    forall i, j, k :: 0 <= i < j < k < |s| && s[i].main == s[k].main ==> s[j].main == s[i].main
  }

  predicate MainsOnce(s: seq<Quality>) {
    forall i, j :: 0 <= i < j < |s| ==> s[i].main != s[j].main
  }

  lemma {:induction false} GroupedOnce(s: seq<Quality>)
    requires Grouped(s)
    ensures MainsOnce(Compact(s))
  {
    if s != [] {
      var n := |s| - 1;
      GroupedOnce(s[..n]);
      if n > 0 && s[n].main != s[n - 1].main {
        forall v | v in Compact(s[..n]) ensures v.main != s[n].main {
          assert v in s[..n];
          var k :| 0 <= k < n && s[k] == v;
        }
      }
    }
  }

  predicate StartsRun(s: seq<Quality>, i: nat)
    requires i < |s|
  {
    i == 0 || s[i].main != s[i - 1].main
  }

  /** Compaction keeps the first element of each run of one main value, in their order. */
  lemma {:induction false} CompactFirsts(s: seq<Quality>) returns (at: seq<nat>)
    ensures |at| == |Compact(s)| && forall k :: 0 <= k < |at| ==> at[k] < |s| && Compact(s)[k] == s[at[k]]
    ensures forall j, k :: 0 <= j < k < |at| ==> at[j] < at[k]
    ensures forall i: nat :: i < |s| ==> (i in at <==> StartsRun(s, i))
  {
    at := [];
    if s != [] {
      var n := |s| - 1;
      var before := CompactFirsts(s[..n]);
      var more: seq<nat> := if StartsRun(s, n) then [n] else [];
      at := before + more;
      assert n !in before;
      forall i: nat | i < |s| ensures i in at <==> StartsRun(s, i) {
        assert i in at <==> i in before || i in more;
        if i < n {
          assert StartsRun(s[..n], i) <==> StartsRun(s, i);
        }
      }
    }
  }

  /** Compaction loses no main value. */
  lemma {:induction false} CompactKeepsMains(s: seq<Quality>, i: nat)
    requires i < |s|
    ensures exists v :: v in Compact(s) && v.main == s[i].main
  {
    var n := |s| - 1;
    if i < n {
      CompactKeepsMains(s[..n], i);
      var v :| v in Compact(s[..n]) && v.main == s[i].main;
      assert v in Compact(s);
    } else if n > 0 && s[n].main == s[n - 1].main {
      CompactKeepsMains(s[..n], n - 1);
      var v :| v in Compact(s[..n]) && v.main == s[i].main;
      assert v in Compact(s);
    } else {
      assert s[n] in Compact(s);
    }
  }

  lemma NotOncePrefix(a: seq<Quality>, b: seq<Quality>)
    requires a <= b && !MainsOnce(a)
    ensures !MainsOnce(b)
  {
    var i, j :| 0 <= i < j < |a| && a[i].main == a[j].main;
    assert b[i] == a[i] && b[j] == a[j];
  }

  lemma KeptAgain(s: seq<Quality>, i: nat)
    requires i < |s| - 1 && s[i].main == s[|s| - 1].main != s[|s| - 2].main
    ensures !MainsOnce(Compact(s))
  {
    var n := |s| - 1;
    var c := Compact(s[..n]);
    CompactKeepsMains(s[..n], i);
    var v :| v in c && v.main == s[i].main;
    var at :| 0 <= at < |c| && c[at] == v;
    assert Compact(s) == c + [s[n]];
    assert Compact(s)[at].main == Compact(s)[|c|].main;
  }

  /** A main value that comes back after another one is kept again. */
  lemma {:induction false} ReturningKept(s: seq<Quality>, i: nat, j: nat, k: nat)
    requires i < j < k < |s| && s[i].main == s[k].main != s[j].main
    ensures !MainsOnce(Compact(s))
    decreases |s|
  {
    var n := |s| - 1;
    if k < n {
      ReturningKept(s[..n], i, j, k);
      NotOncePrefix(Compact(s[..n]), Compact(s));
    } else if s[n - 1].main == s[n].main {
      ReturningKept(s[..n], i, j, n - 1);
      assert Compact(s) == Compact(s[..n]);
    } else {
      KeptAgain(s, i);
    }
  }

  lemma OnceIffGrouped(s: seq<Quality>)
    ensures MainsOnce(Compact(s)) <==> Grouped(s)
  {
    if Grouped(s) {
      GroupedOnce(s);
    } else {
      var i, j, k :| 0 <= i < j < k < |s| && s[i].main == s[k].main && s[j].main != s[i].main;
      ReturningKept(s, i, j, k);
    }
  }

  /** Some record ranks between two others that share a main value it does not have. */
  predicate Interleaved(cmp: (Quality, Quality) -> int, items: seq<Quality>) {
    exists a, b, c :: a in items && b in items && c in items && Splits(cmp, a, b, c)
  }

  predicate Splits(cmp: (Quality, Quality) -> int, a: Quality, b: Quality, c: Quality) {
    a.main == c.main != b.main && cmp(a, b) <= 0 && cmp(b, c) <= 0
  }

  lemma ReturningInterleaves(cmp: (Quality, Quality) -> int, s: seq<Quality>)
    requires Sorted(cmp, s) && !Grouped(s)
    ensures Interleaved(cmp, s)
  {
    var i, j, k :| 0 <= i < j < k < |s| && s[i].main == s[k].main && s[j].main != s[i].main;
    assert Splits(cmp, s[i], s[j], s[k]);
  }

  lemma SplitsAt(cmp: (Quality, Quality) -> int, s: seq<Quality>, i: nat, j: nat, k: nat)
    requires TotalOrder(cmp) && Sorted(cmp, s)
    requires i < |s| && j < |s| && k < |s| && Splits(cmp, s[i], s[j], s[k])
    ensures i < j < k && s[i].main == s[k].main && s[j].main != s[i].main
  {
    StandsBefore(cmp, s, i, j);
    StandsBefore(cmp, s, j, k);
  }

  lemma SplitsWhere(cmp: (Quality, Quality) -> int, s: seq<Quality>) returns (i: nat, j: nat, k: nat)
    requires Interleaved(cmp, s)
    ensures i < |s| && j < |s| && k < |s| && Splits(cmp, s[i], s[j], s[k])
  {
    var a, b, c :| a in s && b in s && c in s && Splits(cmp, a, b, c);
    i :| 0 <= i < |s| && s[i] == a;
    j :| 0 <= j < |s| && s[j] == b;
    k :| 0 <= k < |s| && s[k] == c;
  }

  lemma InterleavedReturns(cmp: (Quality, Quality) -> int, s: seq<Quality>)
    requires TotalOrder(cmp) && Sorted(cmp, s) && Interleaved(cmp, s)
    ensures !Grouped(s)
  {
    var i, j, k := SplitsWhere(cmp, s);
    SplitsAt(cmp, s, i, j, k);
  }

  lemma InterleavedPermuted(cmp: (Quality, Quality) -> int, s: seq<Quality>, items: seq<Quality>)
    requires multiset(s) == multiset(items)
    ensures Interleaved(cmp, s) <==> Interleaved(cmp, items)
  {
    forall v ensures v in s <==> v in items {
      assert v in s <==> v in multiset(s);
      assert v in items <==> v in multiset(items);
    }
  }

  /** Of a field value only one record is kept for each main value if and only if, among the
      records read from it, none ranks between two of another main value. */
  lemma MainsOnceIff(parse: string -> Option<real>, sort: seq<string> -> seq<string>,
                     sortQ: seq<Quality> -> seq<Quality>, value: string)
    requires Sorts(COMPARE, sortQ)
    ensures var items := ReadParts(parse, sort, Csv.Split(value));
            MainsOnce(Compact(sortQ(items))) <==> !Interleaved(COMPARE, items)
  {
    var items := ReadParts(parse, sort, Csv.Split(value));
    var sorted := sortQ(items);
    CompareTotal();
    assert SortOf(COMPARE, sorted, items);
    OnceIffGrouped(sorted);
    if Grouped(sorted) {
      if Interleaved(COMPARE, sorted) {
        InterleavedReturns(COMPARE, sorted);
      }
    } else {
      ReturningInterleaves(COMPARE, sorted);
    }
    InterleavedPermuted(COMPARE, sorted, items);
  }

  lemma HigherQFirst(a: Quality, b: Quality)
    requires a.q > b.q
    ensures COMPARE(a, b) < 0
  {
    assert BY_Q(a, b) == -1;
  }

  /** Of equal qualities the value with fewer wildcards comes first, and of equal values the one
      with more parameters. */
  lemma MoreSpecificFirst(a: Quality, b: Quality)
    requires a.q == b.q
    ensures Wildcards(a.main) < Wildcards(b.main) ==> COMPARE(a, b) < 0
    ensures a.main == b.main && |a.params| > |b.params| ==> COMPARE(a, b) < 0
    ensures Wildcards("*/*") == 2 && Wildcards("text/*") == 1 && Wildcards("text/html") == 0
  {
    StringsTotal();
    assert BY_Q(a, b) == 0;
    WildcardsCounted();
  }

  lemma WildcardsCounted()
    ensures Wildcards("*/*") == 2 && Wildcards("text/*") == 1 && Wildcards("text/html") == 0
  {
    NoWildcards("text/html");
    NoWildcards("text/");
    WildcardLast("text/");
    assert "text/" + "*" == "text/*";
    assert "*/*"[1..] == "/*" && "/*"[1..] == "*" && "*"[1..] == "";
    assert Wildcards("*") == 1 && Wildcards("/*") == 1;
  }

  lemma {:induction false} NoWildcards(s: string)
    requires '*' !in s
    ensures Wildcards(s) == 0
  {
    if s != "" {
      assert s[0] in s;
      NoWildcards(s[1..]);
    }
  }

  lemma {:induction false} WildcardLast(s: string)
    requires '*' !in s
    ensures Wildcards(s + "*") == 1
  {
    if s == "" {
      assert s + "*" == "*" && "*"[1..] == "";
    } else {
      assert s[0] in s && (s + "*")[1..] == s[1..] + "*";
      WildcardLast(s[1..]);
    }
  }

  /** Falling qualities are sorted, whatever the main values. */
  lemma FallingSorted(s: seq<Quality>)
    requires forall i, j :: 0 <= i < j < |s| ==> s[i].q > s[j].q
    ensures Sorted(COMPARE, s)
  {
    forall i, j | 0 <= i < j < |s| ensures COMPARE(s[i], s[j]) <= 0 {
      HigherQFirst(s[i], s[j]);
    }
  }

  /** An element with a quality value alone reads as its main value and that quality, brought into
      the range from 0.001 to 1. */
  lemma ReadsAnyQ(parse: string -> Option<real>, sort: seq<string> -> seq<string>, main: string, letter: char,
                  digits: string, q: real)
    requires ';' !in main && ';' !in digits && digits !in {"", "0", "0.0"} && !IsBlank(digits[|digits| - 1])
    requires letter in {'q', 'Q'} && parse(digits) == Some(q) && sort([]) == []
    ensures ReadPart(parse, sort, main + ";" + [letter] + "=" + digits)
            == Some(Quality(main, if q > 1.0 then 1.0 else if q < 0.001 then 0.001 else q, []))
  {
    var part, param := main + ";" + [letter] + "=" + digits, [letter] + "=" + digits;
    ParamAlone(main, param, part);
    assert FirstIndex(param, ';') == |param| by {
      assert forall i :: 2 <= i < |param| ==> param[i] == digits[i - 2] && digits[i - 2] in digits;
    }
    assert param[|param| - 1] == digits[|digits| - 1];
    var params: seq<string> := [param];
    assert SplitParams(param) == params && param[2..] == digits && params[1..] == [];
    assert IsQ(param);
    assert ReadParams(parse, params, MAX_Q, []) == ReadParams(parse, [], Clamp(q), []);
  }

  lemma ParamAlone(main: string, param: string, part: string)
    requires ';' !in main && part == main + ";" + param
    ensures FirstIndex(part, ';') == |main| && part[..|main|] == main && part[|main| + 1..] == param
  {
    assert part[|main|] == ';';
    assert forall i :: 0 <= i < |main| ==> part[i] == main[i] && main[i] in main;
  }

  lemma ReadsQ(parse: string -> Option<real>, sort: seq<string> -> seq<string>, main: string, digits: string, q: real)
    requires ';' !in main && ';' !in digits && digits !in {"", "0", "0.0"} && !IsBlank(digits[|digits| - 1])
    requires parse(digits) == Some(q) && MIN_Q <= q <= MAX_Q && sort([]) == []
    ensures ReadPart(parse, sort, main + ";q=" + digits) == Some(Quality(main, q, []))
  {
    assert main + ";" + ['q'] + "=" + digits == main + ";q=" + digits;
    ReadsAnyQ(parse, sort, main, 'q', digits, q);
  }

  /** An element with quality 0 is not acceptable and is left out. */
  lemma ZeroDropped(parse: string -> Option<real>, sort: seq<string> -> seq<string>, main: string)
    requires ';' !in main
    ensures ReadPart(parse, sort, main + ";q=0") == None && ReadPart(parse, sort, main + ";q=0.0") == None
  {
    ParamAlone(main, "q=0", main + ";q=0");
    ParamAlone(main, "q=0.0", main + ";q=0.0");
    assert "q=0"[2..] == "0" && "q=0.0"[2..] == "0.0";
    assert FirstIndex("q=0", ';') == 3 && FirstIndex("q=0.0", ';') == 5;
  }

  /** Any other parameter is kept, and printed again. */
  lemma ParamKept(parse: string -> Option<real>, format: real -> string, sort: seq<string> -> seq<string>,
                  sortQ: seq<Quality> -> seq<Quality>, main: string, param: string)
    requires Csv.IsElement(main + ";" + param) && ';' !in main && ';' !in param && param != ""
    requires !IsBlank(param[0]) && !IsBlank(param[|param| - 1]) && param[0] !in {'q', 'Q'}
    requires sort([param]) == [param] && Sorts(COMPARE, sortQ)
    ensures NormalizeQ(parse, format, sort, sortQ, main + ";" + param) == main + ";" + param
  {
    var value, v := main + ";" + param, Quality(main, 1.0, [param]);
    ParamRead(parse, sort, main, param);
    OneElement(parse, format, sort, sortQ, value, v);
    ParamPrinted(format, main, param);
  }

  lemma ParamPrinted(format: real -> string, main: string, param: string)
    ensures PrintOne(format, Quality(main, 1.0, [param])) == main + ";" + param
  {
    assert [param][1..] == [] && PrintParams([param]) == ";" + param;
    assert main + (";" + param) == main + ";" + param;
  }

  /** A value of one element is normalized to that element as read. */
  lemma OneElement(parse: string -> Option<real>, format: real -> string, sort: seq<string> -> seq<string>,
                   sortQ: seq<Quality> -> seq<Quality>, value: string, v: Quality)
    requires Csv.IsElement(value) && ReadPart(parse, sort, value) == Some(v) && Sorts(COMPARE, sortQ)
    ensures NormalizeQ(parse, format, sort, sortQ, value) == PrintOne(format, v)
  {
    OneRead(parse, sort, value, v);
    FallingFixed(sortQ, [v]);
    assert [v][..0] == [] && Compact([v]) == [v];
  }

  lemma OneRead(parse: string -> Option<real>, sort: seq<string> -> seq<string>, value: string, v: Quality)
    requires Csv.IsElement(value) && ReadPart(parse, sort, value) == Some(v)
    ensures ReadParts(parse, sort, Csv.Split(value)) == [v]
  {
    assert Csv.Join([value], ", ") == value;
    Csv.SplitJoin([value]);
    assert [value][1..] == [];
  }

  lemma ParamRead(parse: string -> Option<real>, sort: seq<string> -> seq<string>, main: string, param: string)
    requires ';' !in main && ';' !in param && param != "" && sort([param]) == [param]
    requires !IsBlank(param[0]) && !IsBlank(param[|param| - 1]) && param[0] !in {'q', 'Q'}
    ensures ReadPart(parse, sort, main + ";" + param) == Some(Quality(main, 1.0, [param]))
  {
    ParamAlone(main, param, main + ";" + param);
    assert FirstIndex(param, ';') == |param| by {
      assert forall i :: 0 <= i < |param| ==> param[i] in param;
    }
    var params: seq<string> := [param];
    assert SplitParams(param) == params && params[1..] == [];
    assert ReadParams(parse, params, MAX_Q, []) == ReadParams(parse, [], MAX_Q, [] + [param]);
    assert [] + [param] == [param];
  }

  /** A parameter as it is printed: not empty, without ';', and without blanks around it. */
  predicate IsParam(p: string) {
    p != "" && ';' !in p && !IsBlank(p[0]) && !IsBlank(p[|p| - 1])
  }

  lemma FirstSemicolon(p: string, rest: string)
    requires ';' !in p && (rest == "" || rest[0] == ';')
    ensures FirstIndex(p + rest, ';') == |p|
  {
    var s := p + rest;
    forall i | 0 <= i < |p| ensures s[i] != ';' {
      assert s[i] == p[i] && p[i] in p;
    }
    assert rest != "" ==> s[|p|] == rest[0];
  }

  lemma SplitNext(p: string, rest: string)
    requires ';' !in p && (rest == "" || rest[0] == ';')
    ensures SplitParams(p + rest) == if rest == "" then [DropBlanks(p)] else [DropBlanks(p)] + SplitParams(rest[1..])
  {
    FirstSemicolon(p, rest);
    var s := p + rest;
    assert s[..|p|] == p;
    if rest == "" {
      assert s == p;
    } else {
      assert s[|p| + 1..] == rest[1..];
    }
  }

  lemma {:induction false} SplitsPrinted(params: seq<string>)
    requires params != [] && forall i :: 0 <= i < |params| ==> IsParam(params[i])
    ensures var s := PrintParams(params); s != "" && s[0] == ';' && SplitParams(s[1..]) == params
  {
    var p, rest := params[0], PrintParams(params[1..]);
    assert PrintParams(params)[1..] == p + rest;
    assert [p] + params[1..] == params;
    if |params| > 1 {
      SplitsPrinted(params[1..]);
    } else {
      assert params == [p];
    }
    SplitNext(p, rest);
    assert DropBlanks(p) == p;
  }

  lemma {:induction false} KeepsParams(parse: string -> Option<real>, params: seq<string>, tail: seq<string>,
                                       kept: seq<string>)
    requires forall i :: 0 <= i < |params| ==> params[i] != "" && !IsQ(params[i])
    ensures ReadParams(parse, params + tail, MAX_Q, kept) == ReadParams(parse, tail, MAX_Q, kept + params)
  {
    if params == [] {
      assert params + tail == tail && kept + params == kept;
    } else {
      assert (params + tail)[1..] == params[1..] + tail;
      KeepsParams(parse, params[1..], tail, kept + [params[0]]);
      assert kept + [params[0]] + params[1..] == kept + params;
    }
  }

  lemma {:induction false} PrintsTail(params: seq<string>, last: seq<string>)
    requires |last| <= 1
    ensures PrintParams(params + last) == PrintParams(params) + (if last == [] then "" else ";" + last[0])
  {
    if params == [] {
      assert params + last == last && last[|last|..] == [];
    } else {
      assert (params + last)[1..] == params[1..] + last;
      PrintsTail(params[1..], last);
    }
  }

  lemma LastQ(parse: string -> Option<real>, digits: string, q: real, kept: seq<string>)
    requires IsParam(digits) && digits !in {"0", "0.0"} && parse(digits) == Some(q) && MIN_Q <= q <= MAX_Q
    ensures ReadParams(parse, ["q=" + digits], MAX_Q, kept) == Some((q, kept)) && IsParam("q=" + digits)
  {
    var params: seq<string> := ["q=" + digits];
    assert params[0][2..] == digits && params[1..] == [] && IsQ(params[0]);
    assert ReadParams(parse, params, MAX_Q, kept) == ReadParams(parse, [], Clamp(q), kept);
  }

  lemma PartOf(parse: string -> Option<real>, sort: seq<string> -> seq<string>, main: string, pieces: seq<string>)
    requires ';' !in main && pieces != [] && forall i :: 0 <= i < |pieces| ==> IsParam(pieces[i])
    ensures ReadPart(parse, sort, main + PrintParams(pieces)) ==
            match ReadParams(parse, pieces, MAX_Q, [])
            case None => None
            case Some((q, params)) => Some(Quality(main, q, sort(params)))
  {
    SplitsPrinted(pieces);
    FirstSemicolon(main, PrintParams(pieces));
    var part := main + PrintParams(pieces);
    assert part[..|main|] == main && part[|main| + 1..] == PrintParams(pieces)[1..];
  }

  /** A printed record reads back: its main value, its parameters in order, and its quality, where the
      printed quality is a number that reads back. */
  lemma ReadsPrinted(parse: string -> Option<real>, format: real -> string, sort: seq<string> -> seq<string>,
                     v: Quality)
    requires ';' !in v.main && sort(v.params) == v.params
    requires forall i :: 0 <= i < |v.params| ==> IsParam(v.params[i]) && !IsQ(v.params[i])
    requires v.q != 1.0 ==>
               0.001 <= v.q < 1.0 && parse(format(v.q)) == Some(v.q) &&
               IsParam(format(v.q)) && format(v.q) !in {"0", "0.0"}
    ensures ReadPart(parse, sort, PrintOne(format, v)) == Some(v)
  {
    var last: seq<string> := if v.q != MAX_Q then ["q=" + format(v.q)] else [];
    var pieces := v.params + last;
    PrintsTail(v.params, last);
    assert PrintOne(format, v) == v.main + PrintParams(pieces);
    KeepsParams(parse, v.params, last, []);
    assert [] + v.params == v.params;
    if last != [] {
      LastQ(parse, format(v.q), v.q, v.params);
    }
    if pieces == [] {
      FirstSemicolon(v.main, "");
      assert v.main + "" == v.main;
    } else {
      SplitsPrinted(pieces);
      FirstSemicolon(v.main, PrintParams(pieces));
      PartOf(parse, sort, v.main, pieces);
    }
  }

  lemma SplitOver(head: string, tail: string, rest: string)
    requires ';' !in head
    ensures SplitParams(head + ";" + tail + rest) == [DropBlanks(head)] + SplitParams(tail + rest)
  {
    Behind(head, tail, rest);
    SplitNext(head, ";" + tail + rest);
  }

  lemma Behind(head: string, tail: string, rest: string)
    ensures head + (";" + tail + rest) == head + ";" + tail + rest && (";" + tail + rest)[1..] == tail + rest
    ensures (";" + tail + rest)[0] == ';'
  {
  }

  /** The text up to its first ';' and the text behind. */
  lemma CutFirst(s: string) returns (head: string, tail: string)
    requires s != "" && s[|s| - 1] == ';'
    ensures s == head + ";" + tail && ';' !in head && (tail == "" || tail[|tail| - 1] == ';')
  {
    var i := FirstIndex(s, ';');
    head, tail := s[..i], s[i + 1..];
  }

  lemma {:induction false} SplitsAlike(before: string, p: string, p': string, rest: string)
    requires before == "" || before[|before| - 1] == ';'
    requires ';' !in p && ';' !in p' && DropBlanks(p) == DropBlanks(p') && (rest == "" || rest[0] == ';')
    ensures SplitParams(before + (p + rest)) == SplitParams(before + (p' + rest))
    decreases |before|
  {
    if before == "" {
      SplitNext(p, rest);
      SplitNext(p', rest);
      assert "" + (p + rest) == p + rest && "" + (p' + rest) == p' + rest;
    } else {
      var head, tail := CutFirst(before);
      SplitOver(head, tail, p + rest);
      SplitOver(head, tail, p' + rest);
      SplitsAlike(tail, p, p', rest);
    }
  }

  /** Blanks around a parameter do not count, wherever it stands. */
  lemma ParamBlanks(parse: string -> Option<real>, sort: seq<string> -> seq<string>, main: string, before: string,
                    lead: string, p: string, trail: string, rest: string)
    requires ';' !in main && IsParam(p) && AllBlanks(lead) && AllBlanks(trail)
    requires (before == "" || before[|before| - 1] == ';') && (rest == "" || rest[0] == ';')
    ensures ReadPart(parse, sort, main + ";" + (before + (lead + p + trail + rest)))
            == ReadPart(parse, sort, main + ";" + (before + (p + rest)))
  {
    var padded := lead + p + trail;
    BlanksDropped(lead, p, trail);
    assert DropBlanks(p) == p;
    assert ';' !in padded by {
      assert forall i :: 0 <= i < |lead| ==> lead[i] != ';';
      assert forall i :: 0 <= i < |trail| ==> trail[i] != ';';
    }
    SplitsAlike(before, padded, p, rest);
    var s, t := before + (padded + rest), before + (p + rest);
    ParamAlone(main, s, main + ";" + s);
    ParamAlone(main, t, main + ";" + t);
  }

  lemma ExampleSplits()
    ensures Csv.Split("a, b;q=0.5, a;q=0.3") == ["a", "b;q=0.5", "a;q=0.3"]
  {
    ExampleElements();
    JoinsThree("a", "b;q=0.5", "a;q=0.3");
    assert "a" + ", " + ("b;q=0.5" + ", " + "a;q=0.3") == "a, b;q=0.5, a;q=0.3";
    Csv.SplitJoin(["a", "b;q=0.5", "a;q=0.3"]);
  }

  lemma ExampleElements()
    ensures Csv.IsElement("a") && Csv.IsElement("b;q=0.5") && Csv.IsElement("a;q=0.3")
  {
    Csv.PlainPasses("a");
    Csv.PlainPasses("b;q=0.5");
    Csv.PlainPasses("a;q=0.3");
  }

  lemma JoinsThree(a: string, b: string, c: string)
    ensures Csv.Join([a, b, c], ", ") == a + ", " + (b + ", " + c)
  {
    assert [a, b, c][1..] == [b, c] && [b, c][1..] == [c];
    assert Csv.Join([b, c], ", ") == b + ", " + c;
  }

  lemma ReadsThree(parse: string -> Option<real>, sort: seq<string> -> seq<string>, parts: seq<string>, a: Quality,
                   b: Quality, c: Quality)
    requires |parts| == 3 && ReadPart(parse, sort, parts[0]) == Some(a)
    requires ReadPart(parse, sort, parts[1]) == Some(b) && ReadPart(parse, sort, parts[2]) == Some(c)
    ensures ReadParts(parse, sort, parts) == [a, b, c]
  {
    var rest := parts[1..];
    assert rest[1..] == parts[2..] && rest[1..][1..] == [];
    assert ReadParts(parse, sort, rest[1..]) == [c];
    assert ReadParts(parse, sort, rest) == [b, c];
  }

  lemma ExampleB(parse: string -> Option<real>, sort: seq<string> -> seq<string>)
    requires parse("0.5") == Some(0.5) && sort([]) == []
    ensures ReadPart(parse, sort, "b;q=0.5") == Some(Quality("b", 0.5, []))
  {
    assert "b" + ";q=" + "0.5" == "b;q=0.5";
    ReadsQ(parse, sort, "b", "0.5", 0.5);
  }

  lemma ExampleA(parse: string -> Option<real>, sort: seq<string> -> seq<string>)
    requires parse("0.3") == Some(0.3) && sort([]) == []
    ensures ReadPart(parse, sort, "a;q=0.3") == Some(Quality("a", 0.3, []))
    ensures ReadPart(parse, sort, "a") == Some(Quality("a", 1.0, []))
  {
    assert "a" + ";q=" + "0.3" == "a;q=0.3";
    ReadsQ(parse, sort, "a", "0.3", 0.3);
    assert FirstIndex("a", ';') == 1;
  }

  lemma ExampleReads(parse: string -> Option<real>, sort: seq<string> -> seq<string>)
    requires parse("0.5") == Some(0.5) && parse("0.3") == Some(0.3) && sort([]) == []
    ensures ReadParts(parse, sort, Csv.Split("a, b;q=0.5, a;q=0.3"))
            == [Quality("a", 1.0, []), Quality("b", 0.5, []), Quality("a", 0.3, [])]
  {
    ExampleSplits();
    ExampleB(parse, sort);
    ExampleA(parse, sort);
    var parts := ["a", "b;q=0.5", "a;q=0.3"];
    ReadsThree(parse, sort, parts, Quality("a", 1.0, []), Quality("b", 0.5, []), Quality("a", 0.3, []));
  }

  lemma KeepsThree(a: Quality, b: Quality, c: Quality)
    requires a.main != b.main && b.main != c.main
    ensures Compact([a, b, c]) == [a, b, c]
  {
    var two := [a, b];
    assert [a, b, c][..2] == two && two[..1] == [a] && [a][..0] == [];
    assert Compact([a]) == [a];
    assert Compact(two) == [a, b];
  }

  lemma PrintsThree(format: real -> string, a: Quality, b: Quality, c: Quality)
    ensures PrintAll(format, [a, b, c]) == PrintOne(format, a) + "," + PrintOne(format, b) + "," + PrintOne(format, c)
  {
    var two := [a, b];
    assert [a, b, c][..2] == two && two[..1] == [a];
    assert PrintAll(format, two) == PrintOne(format, a) + "," + PrintOne(format, b);
  }

  lemma FallingFixed(sortQ: seq<Quality> -> seq<Quality>, items: seq<Quality>)
    requires Sorts(COMPARE, sortQ) && forall i, j :: 0 <= i < j < |items| ==> items[i].q > items[j].q
    ensures sortQ(items) == items
  {
    FallingSorted(items);
    CompareTotal();
    SortFixes(COMPARE, sortQ, items);
  }

  lemma PrintsPlain(format: real -> string, main: string, q: real)
    ensures PrintOne(format, Quality(main, q, [])) == if q == MAX_Q then main else main + ";q=" + format(q)
  {
  }

  lemma ExamplePrinted(format: real -> string)
    requires format(0.5) == "0.5" && format(0.3) == "0.3"
    ensures PrintAll(format, [Quality("a", 1.0, []), Quality("b", 0.5, []), Quality("a", 0.3, [])])
            == "a,b;q=0.5,a;q=0.3"
  {
    PrintsThree(format, Quality("a", 1.0, []), Quality("b", 0.5, []), Quality("a", 0.3, []));
    PrintsPlain(format, "a", 1.0);
    PrintsPlain(format, "b", 0.5);
    PrintsPlain(format, "a", 0.3);
  }

  /** An input: this value keeps "a" twice, whatever correct sort is used. */
  lemma MainKeptTwice(parse: string -> Option<real>, format: real -> string, sort: seq<string> -> seq<string>,
                      sortQ: seq<Quality> -> seq<Quality>)
    requires parse("0.5") == Some(0.5) && parse("0.3") == Some(0.3) && sort([]) == [] && Sorts(COMPARE, sortQ)
    requires format(0.5) == "0.5" && format(0.3) == "0.3"
    ensures NormalizeQ(parse, format, sort, sortQ, "a, b;q=0.5, a;q=0.3") == "a,b;q=0.5,a;q=0.3"
  {
    var a, b, c := Quality("a", 1.0, []), Quality("b", 0.5, []), Quality("a", 0.3, []);
    ExampleReads(parse, sort);
    FallingFixed(sortQ, [a, b, c]);
    assert a.main[0] != b.main[0];
    KeepsThree(a, b, c);
    ExamplePrinted(format);
  }

  /** `normalizeOrderInsensitive` */
  function NormalizeList(sort: seq<string> -> seq<string>, value: string): string {
    Csv.Join(sort(Csv.Split(value)), ",")
  }

  lemma ListCanonical(sort: seq<string> -> seq<string>, sort': seq<string> -> seq<string>, v: string, w: string)
    requires Sorts(CompareStrings, sort) && Sorts(CompareStrings, sort')
    requires multiset(Csv.Split(v)) == multiset(Csv.Split(w))
    ensures NormalizeList(sort, v) == NormalizeList(sort', w)
  {
    StringsTotal();
    assert SortOf(CompareStrings, sort(Csv.Split(v)), Csv.Split(v));
    assert SortOf(CompareStrings, sort'(Csv.Split(w)), Csv.Split(w));
    SortedUnique(CompareStrings, sort(Csv.Split(v)), sort'(Csv.Split(w)));
  }

  /** A normal form loses nothing: splitting it gives back the sorted elements. So two plain lists of
      clean elements have one normal form if and only if they are permutations of each other. */
  lemma ListFormIff(sort: seq<string> -> seq<string>, v: string, w: string)
    requires Sorts(CompareStrings, sort)
    requires forall p :: p in Csv.Split(v) + Csv.Split(w) ==> Csv.IsElement(p)
    ensures Csv.Split(NormalizeList(sort, v)) == sort(Csv.Split(v))
    ensures NormalizeList(sort, v) == NormalizeList(sort, w) <==> multiset(Csv.Split(v)) == multiset(Csv.Split(w))
  {
    ListFormSplits(sort, v);
    ListFormSplits(sort, w);
    assert SortOf(CompareStrings, sort(Csv.Split(v)), Csv.Split(v));
    assert SortOf(CompareStrings, sort(Csv.Split(w)), Csv.Split(w));
    if multiset(Csv.Split(v)) == multiset(Csv.Split(w)) {
      ListCanonical(sort, sort, v, w);
    }
  }

  lemma ListFormSplits(sort: seq<string> -> seq<string>, v: string)
    requires Sorts(CompareStrings, sort) && forall p :: p in Csv.Split(v) ==> Csv.IsElement(p)
    ensures Csv.Split(NormalizeList(sort, v)) == sort(Csv.Split(v))
  {
    var parts := sort(Csv.Split(v));
    assert SortOf(CompareStrings, parts, Csv.Split(v));
    forall i | 0 <= i < |parts| ensures Csv.IsElement(parts[i]) {
      assert parts[i] in multiset(parts);
      assert parts[i] in Csv.Split(v);
    }
    Csv.SplitJoinComma(parts);
  }
}
