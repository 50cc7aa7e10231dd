/**
  Sorting by a comparator whose ties are identical: any two correct sorts of the same items,
  stable or not, agree. Lexicographic order on byte strings is such a comparator.
 */
module Ordering {
  import opened Base

  /** A three-way comparator that is a total order: only identical items tie. */
  ghost predicate TotalOrder<T(!new)>(cmp: (T, T) -> int) {
    (forall a, b :: cmp(a, b) == 0 <==> a == b) &&
    (forall a, b :: cmp(a, b) < 0 <==> cmp(b, a) > 0) &&
    (forall a, b, c :: cmp(a, b) <= 0 && cmp(b, c) <= 0 ==> cmp(a, c) <= 0)
  }

  predicate Sorted<T>(cmp: (T, T) -> int, s: seq<T>) {
    forall i, j :: 0 <= i < j < |s| ==> cmp(s[i], s[j]) <= 0
  }

  /** `slices.SortFunc`: a sorted permutation. */
  ghost predicate SortOf<T(!new)>(cmp: (T, T) -> int, s: seq<T>, items: seq<T>) {
    multiset(s) == multiset(items) && Sorted(cmp, s)
  }

  ghost predicate Sorts<T(!new)>(cmp: (T, T) -> int, sort: seq<T> -> seq<T>) {
    forall items :: SortOf(cmp, sort(items), items)
  }

  lemma TailsPermute<T>(s: seq<T>, t: seq<T>)
    requires s != [] && t != [] && s[0] == t[0] && multiset(s) == multiset(t)
    ensures multiset(s[1..]) == multiset(t[1..])
  {
    assert s == [s[0]] + s[1..] && t == [t[0]] + t[1..];
    assert multiset(s[1..]) == multiset(s) - multiset{s[0]};
    assert multiset(t[1..]) == multiset(t) - multiset{t[0]};
  }

  lemma TailSorted<T>(cmp: (T, T) -> int, s: seq<T>)
    requires s != [] && Sorted(cmp, s)
    ensures Sorted(cmp, s[1..])
  {
    forall i, j | 0 <= i < j < |s[1..]| ensures cmp(s[1..][i], s[1..][j]) <= 0 {
      assert s[1..][i] == s[i + 1] && s[1..][j] == s[j + 1];
    }
  }

  /** There is only one sorted permutation. */
  lemma {:induction false} SortedUnique<T(!new)>(cmp: (T, T) -> int, s: seq<T>, t: seq<T>)
    requires TotalOrder(cmp) && Sorted(cmp, s) && Sorted(cmp, t) && multiset(s) == multiset(t)
    ensures s == t
  {
    assert |s| == |multiset(s)| && |t| == |multiset(t)|;
    if s != [] {
      LeastFirst(cmp, s, t);
      TailsPermute(s, t);
      TailSorted(cmp, s);
      TailSorted(cmp, t);
      SortedUnique(cmp, s[1..], t[1..]);
      assert s == [s[0]] + s[1..] && t == [t[0]] + t[1..];
    }
  }

  /** What is sorted already stays as it is. */
  lemma SortFixes<T(!new)>(cmp: (T, T) -> int, sort: seq<T> -> seq<T>, items: seq<T>)
    requires TotalOrder(cmp) && Sorts(cmp, sort) && Sorted(cmp, items)
    ensures sort(items) == items
  {
    assert SortOf(cmp, sort(items), items);
    SortedUnique(cmp, sort(items), items);
  }

  /** Different items of a sorted list stand as they compare. */
  lemma StandsBefore<T(!new)>(cmp: (T, T) -> int, s: seq<T>, i: nat, j: nat)
    requires TotalOrder(cmp) && Sorted(cmp, s) && i < |s| && j < |s| && s[i] != s[j] && cmp(s[i], s[j]) <= 0
    ensures i < j
  {
    assert cmp(s[j], s[i]) > 0;
  }

  lemma LeastFirst<T(!new)>(cmp: (T, T) -> int, s: seq<T>, t: seq<T>)
    requires TotalOrder(cmp) && Sorted(cmp, s) && Sorted(cmp, t) && multiset(s) == multiset(t)
    requires s != [] && t != []
    ensures s[0] == t[0]
  {
    assert s[0] in multiset(s) && t[0] in multiset(t);
    var i :| 0 <= i < |t| && t[i] == s[0];
    var j :| 0 <= j < |s| && s[j] == t[0];
    assert cmp(t[0], s[0]) <= 0 by { if i == 0 { assert cmp(t[0], t[0]) == 0; } }
    assert cmp(s[0], t[0]) <= 0 by { if j == 0 { assert cmp(s[0], s[0]) == 0; } }
  }

  // ----- Lexicographic order -----

  function Sign(x: int): int { if x < 0 then -1 else if x > 0 then 1 else 0 }

  /** `slices.Compare` under an element comparator: elementwise, then by length. */
  function Lex<T>(cmp: (T, T) -> int, a: seq<T>, b: seq<T>): int {
    if a == [] || b == [] then Sign(|a| - |b|)
    else if cmp(a[0], b[0]) != 0 then cmp(a[0], b[0])
    else Lex(cmp, a[1..], b[1..])
  }

  lemma {:induction false} LexEqual<T(!new)>(cmp: (T, T) -> int, a: seq<T>, b: seq<T>)
    requires TotalOrder(cmp)
    ensures Lex(cmp, a, b) == 0 <==> a == b
    ensures Lex(cmp, a, b) < 0 <==> Lex(cmp, b, a) > 0
  {
    if a != [] && b != [] {
      LexEqual(cmp, a[1..], b[1..]);
      if a[0] == b[0] {
        assert a == b <==> a[1..] == b[1..] by {
          assert a == [a[0]] + a[1..] && b == [b[0]] + b[1..];
        }
      }
    }
  }

  lemma {:induction false} LexTransitive<T(!new)>(cmp: (T, T) -> int, a: seq<T>, b: seq<T>, c: seq<T>)
    requires TotalOrder(cmp) && Lex(cmp, a, b) <= 0 && Lex(cmp, b, c) <= 0
    ensures Lex(cmp, a, c) <= 0
  {
    if a != [] && b != [] && c != [] {
      assert cmp(a[0], b[0]) <= 0 && cmp(b[0], c[0]) <= 0;
      assert cmp(a[0], c[0]) <= 0;
      if cmp(a[0], c[0]) == 0 {
        assert cmp(b[0], a[0]) <= 0;
        assert cmp(a[0], b[0]) == 0 && cmp(b[0], c[0]) == 0;
        LexTransitive(cmp, a[1..], b[1..], c[1..]);
      }
    }
  }

  lemma LexTotal<T(!new)>(cmp: (T, T) -> int)
    requires TotalOrder(cmp)
    ensures TotalOrder((a: seq<T>, b: seq<T>) => Lex(cmp, a, b))
  {
    forall a: seq<T>, b: seq<T> ensures (Lex(cmp, a, b) == 0 <==> a == b) &&
      (Lex(cmp, a, b) < 0 <==> Lex(cmp, b, a) > 0) {
      LexEqual(cmp, a, b);
    }
    forall a: seq<T>, b: seq<T>, c: seq<T> | Lex(cmp, a, b) <= 0 && Lex(cmp, b, c) <= 0 ensures Lex(cmp, a, c) <= 0 {
      LexTransitive(cmp, a, b, c);
    }
  }

  /** Byte order. */
  const BY_CHAR: (char, char) -> int := (a: char, b: char) => a as int - b as int

  function CompareStrings(a: string, b: string): int {
    Lex(BY_CHAR, a, b)
  }

  function CompareLists(a: seq<string>, b: seq<string>): int {
    Lex(CompareStrings, a, b)
  }

  /** The first byte that differs decides, and a prefix comes first. */
  lemma {:induction false} BytesDecide(p: string, c: char, d: char, x: string, y: string)
    requires c < d
    ensures CompareStrings(p + [c] + x, p + [d] + y) < 0 && CompareStrings(p, p + [c] + x) < 0
  {
    if p == "" {
      assert p + [c] + x == [c] + x && p + [d] + y == [d] + y;
    } else {
      assert (p + [c] + x)[1..] == p[1..] + [c] + x && (p + [d] + y)[1..] == p[1..] + [d] + y;
      BytesDecide(p[1..], c, d, x, y);
    }
  }

  lemma StringsTotal()
    ensures TotalOrder(CompareStrings)
  {
    assert TotalOrder(BY_CHAR);
    LexTotal(BY_CHAR);
    forall a, b ensures (CompareStrings(a, b) == 0 <==> a == b) &&
                        (CompareStrings(a, b) < 0 <==> CompareStrings(b, a) > 0) {
      LexEqual(BY_CHAR, a, b);
    }
    forall a, b, c | CompareStrings(a, b) <= 0 && CompareStrings(b, c) <= 0 ensures CompareStrings(a, c) <= 0 {
      LexTransitive(BY_CHAR, a, b, c);
    }
  }

  // ----- Comparators in succession -----

  ghost predicate TotalPreorder<T(!new)>(cmp: (T, T) -> int) {
    (forall a :: cmp(a, a) == 0) &&
    (forall a, b :: cmp(a, b) < 0 <==> cmp(b, a) > 0) &&
    (forall a, b, c :: cmp(a, b) <= 0 && cmp(b, c) <= 0 ==> cmp(a, c) <= 0)
  }

  /** `cmp.Or`: the first comparator that does not tie decides. */
  function Or<T>(first: (T, T) -> int, second: (T, T) -> int): (T, T) -> int {
    (a, b) => if first(a, b) != 0 then first(a, b) else second(a, b)
  }

  lemma OrTransitive<T(!new)>(first: (T, T) -> int, second: (T, T) -> int, a: T, b: T, c: T)
    requires TotalPreorder(first) && TotalPreorder(second)
    requires Or(first, second)(a, b) <= 0 && Or(first, second)(b, c) <= 0
    ensures Or(first, second)(a, c) <= 0
  {
    assert first(a, b) <= 0 && first(b, c) <= 0 && first(a, c) <= 0;
    if first(a, c) == 0 {
      assert first(c, a) <= 0;
      assert first(c, b) <= 0 && first(b, a) <= 0;
      assert first(a, b) == 0 && first(b, c) == 0;
    }
  }

  lemma OrPreorder<T(!new)>(first: (T, T) -> int, second: (T, T) -> int)
    requires TotalPreorder(first) && TotalPreorder(second)
    ensures TotalPreorder(Or(first, second))
  {
    var cmp := Or(first, second);
    forall a, b ensures cmp(a, a) == 0 && (cmp(a, b) < 0 <==> cmp(b, a) > 0) {
    }
    forall a, b, c | cmp(a, b) <= 0 && cmp(b, c) <= 0 ensures cmp(a, c) <= 0 {
      OrTransitive(first, second, a, b, c);
    }
  }

  /** Comparing by a key is a preorder when the keys are totally ordered. */
  lemma KeyPreorder<T(!new), K(!new)>(key: T -> K, order: (K, K) -> int)
    requires TotalOrder(order)
    ensures TotalPreorder((a: T, b: T) => order(key(a), key(b)))
  {
    var cmp := (a: T, b: T) => order(key(a), key(b));
    forall a ensures cmp(a, a) == 0 {
      assert order(key(a), key(a)) == 0;
    }
    forall a, b ensures cmp(a, b) < 0 <==> cmp(b, a) > 0 {
    }
    forall a, b, c | cmp(a, b) <= 0 && cmp(b, c) <= 0 ensures cmp(a, c) <= 0 {
      assert order(key(a), key(b)) <= 0 && order(key(b), key(c)) <= 0;
    }
  }
}
