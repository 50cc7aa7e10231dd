/**
  The text behind the Vary hash (`makeVaryHash` of `internal/normalization.go`): names and
  values of the resolved Vary fields, sorted by name and written one after the other with
  nothing in between. The 64-bit hash itself is any function of that text.
 */
module VaryHash {
  import opened Base
  import opened Http
  import opened Ordering
  import Vary

  /** The names of the map in byte order. */
  ghost predicate SortedNames(keys: seq<string>, m: map<string, string>) {
    Sorted(CompareStrings, keys) && multiset(keys) == multiset(m.Keys)
  }

  function Text(keys: seq<string>, m: map<string, string>): string
    requires forall k :: k in keys ==> k in m
  {
    if keys == [] then ""
    else Text(keys[..|keys| - 1], m) + keys[|keys| - 1] + m[keys[|keys| - 1]]
  }

  lemma NamesInMap(keys: seq<string>, m: map<string, string>)
    requires SortedNames(keys, m)
    ensures forall k :: k in keys ==> k in m
  {
    forall k | k in keys ensures k in m {
      assert k in multiset(keys);
    }
  }

  /** The text does not depend on the order in which the map was iterated. */
  lemma TextUnique(keys: seq<string>, keys': seq<string>, m: map<string, string>)
    requires SortedNames(keys, m) && SortedNames(keys', m)
    ensures keys == keys'
  {
    StringsTotal();
    SortedUnique(CompareStrings, keys, keys');
  }

  /** The names of the map, each once, in any order. */
  method CollectNames(m: map<string, string>) returns (names: seq<string>)
    ensures multiset(names) == multiset(m.Keys)
  {
    names := [];
    var todo := m.Keys;
    while todo != {}
      invariant todo <= m.Keys
      invariant multiset(names) == multiset(m.Keys - todo)
      decreases |todo|
    {
      var k :| k in todo;
      assert m.Keys - (todo - {k}) == (m.Keys - todo) + {k};
      names := names + [k];
      todo := todo - {k};
    }
    assert m.Keys - todo == m.Keys;
  }

  method WriteText(keys: seq<string>, m: map<string, string>) returns (written: string)
    requires forall k :: k in keys ==> k in m
    ensures written == Text(keys, m)
  {
    written := "";
    for i := 0 to |keys|
      invariant written == Text(keys[..i], m)
    {
      assert keys[..i + 1][..i] == keys[..i];
      written := written + keys[i];
      written := written + m[keys[i]];
    }
    assert keys[..|keys|] == keys;
  }

  /** `makeVaryHash`: collects the names, sorts them, writes the pairs, hashes what was written. */
  method MakeVaryHash(hash: string -> nat, sort: seq<string> -> seq<string>, m: map<string, string>)
    returns (h: nat)
    requires Sorts(CompareStrings, sort)
    ensures exists keys :: SortedNames(keys, m) && (forall k :: k in keys ==> k in m) && h == hash(Text(keys, m))
  {
    var names := CollectNames(m);
    var sorted := sort(names);
    assert SortOf(CompareStrings, sorted, names);
    assert SortedNames(sorted, m);
    NamesInMap(sorted, m);
    var written := WriteText(sorted, m);
    h := hash(written);
  }

  /** The library hashes a map by the text of its sorted names. */
  ghost predicate HashesText(lib: Library, hash: string -> nat) {
    forall m, keys :: SortedNames(keys, m) && (forall k :: k in keys ==> k in m) ==>
      lib.varyHash(m) == hash(Text(keys, m))
  }

  /** Without a separator the text is ambiguous: under any hash a field "A" with value "b" and
      a field "Ab" with no value give the same key, so agreement on the key cannot by
      itself mean agreement on the fields. */
  lemma AmbiguousText(lib: Library, hash: string -> nat, urlKey: string)
    requires HashesText(lib, hash)
    ensures var m, n := map["A" := "b"], map["Ab" := ""];
            m != n && Vary.VaryKey(lib, urlKey, m) == Vary.VaryKey(lib, urlKey, n)
  {
    var m, n := map["A" := "b"], map["Ab" := ""];
    assert "A" in m && |"A"| != |"Ab"|;
    OneName("A", "b");
    OneName("Ab", "");
    assert "A" + "b" == "Ab" + "";
  }

  lemma OneName(k: string, v: string)
    ensures SortedNames([k], map[k := v]) && Text([k], map[k := v]) == k + v
  {
    var m := map[k := v];
    assert m.Keys == {k};
    assert [k][..0] == [];
    assert "" + k + v == k + v;
  }

  // ----- When the text tells maps apart -----

  /** The text of these names tells any two maps over them apart. */
  ghost predicate Separates(keys: seq<string>) {
    forall m: map<string, string>, n: map<string, string> ::
      Over(keys, m) && Over(keys, n) && Text(keys, m) == Text(keys, n) ==> m == n
  }

  ghost predicate Over(keys: seq<string>, m: map<string, string>)
    ensures Over(keys, m) ==> forall k :: k in keys ==> k in m
  {
    m.Keys == set k | k in keys
  }

  lemma {:induction false} TextReads(keys: seq<string>, m: map<string, string>, n: map<string, string>)
    requires forall k :: k in keys ==> k in m && k in n && m[k] == n[k]
    ensures Text(keys, m) == Text(keys, n)
  {
    if keys != [] {
      assert keys[|keys| - 1] in keys;
      TextReads(keys[..|keys| - 1], m, n);
    }
  }

  lemma OneSeparates(keys: seq<string>)
    requires |keys| <= 1
    ensures Separates(keys)
  {
    forall m: map<string, string>, n: map<string, string>
      | Over(keys, m) && Over(keys, n) && Text(keys, m) == Text(keys, n) ensures m == n
    {
      if keys != [] {
        var k := keys[0];
        assert keys[..0] == [] && m.Keys == {k} == n.Keys;
        assert Text(keys, m)[|k|..] == m[k] && Text(keys, n)[|k|..] == n[k];
      }
    }
  }

  lemma TextOfLastTwo(keys: seq<string>, m: map<string, string>)
    requires |keys| >= 2 && forall k :: k in keys ==> k in m
    ensures var l := |keys| - 1;
            Text(keys, m) == Text(keys[..l - 1], m) + keys[l - 1] + m[keys[l - 1]] + keys[l] + m[keys[l]]
  {
    var l := |keys| - 1;
    assert keys[..l][..l - 1] == keys[..l - 1] && keys[..l][l - 1] == keys[l - 1];
  }

  lemma LaterNotEmpty(a: string, b: string)
    requires CompareStrings(a, b) <= 0 && a != b
    ensures b != ""
  {
  }

  /** With the last name as the value of the one before it, or as its own value, the text is
      the same. */
  lemma ShiftedValue(keys: seq<string>, m: map<string, string>, n: map<string, string>)
    requires |keys| >= 2 && forall k :: k in keys ==> k in m && k in n
    requires forall k :: k in keys[..|keys| - 2] ==> m[k] == n[k]
    requires m[keys[|keys| - 2]] == keys[|keys| - 1] && m[keys[|keys| - 1]] == ""
    requires n[keys[|keys| - 2]] == "" && n[keys[|keys| - 1]] == keys[|keys| - 1]
    ensures Text(keys, m) == Text(keys, n)
  {
    TextOfLastTwo(keys, m);
    TextOfLastTwo(keys, n);
    TextReads(keys[..|keys| - 2], m, n);
  }

  lemma TwoConfused(keys: seq<string>)
    requires |keys| >= 2 && Sorted(CompareStrings, keys)
    requires forall i, j :: 0 <= i < j < |keys| ==> keys[i] != keys[j]
    ensures !Separates(keys)
  {
    var a, b := keys[|keys| - 2], keys[|keys| - 1];
    var m := map k | k in keys :: if k == a then b else "";
    var n := map k | k in keys :: if k == b then b else "";
    assert Over(keys, m) && Over(keys, n);
    ShiftedValue(keys, m, n);
    LaterNotEmpty(a, b);
    assert m[a] != n[a];
  }

  /** Over arbitrary values, the text of the fields one Vary nominates determines them if and only
      if it nominates at most one. */
  lemma SeparatesIff(keys: seq<string>)
    requires Sorted(CompareStrings, keys) && forall i, j :: 0 <= i < j < |keys| ==> keys[i] != keys[j]
    ensures Separates(keys) <==> |keys| <= 1
  {
    if |keys| <= 1 {
      OneSeparates(keys);
    } else {
      TwoConfused(keys);
    }
  }

  // ----- Values without capitals -----

  predicate NoCapital(s: string) {
    forall i :: 0 <= i < |s| ==> !IsUpper(s[i])
  }

  /** The index of the last capital of a name. */
  lemma {:induction false} LastCapital(k: string) returns (j: nat)
    requires !NoCapital(k)
    ensures j < |k| && IsUpper(k[j]) && NoCapital(k[j + 1..])
  {
    var n := |k| - 1;
    if IsUpper(k[n]) {
      j := n;
    } else {
      var i :| 0 <= i < |k| && IsUpper(k[i]);
      assert k[..n][i] == k[i];
      j := LastCapital(k[..n]);
      assert k[j + 1..] == k[..n][j + 1..] + [k[n]];
    }
  }

  /** With the same name before them, two values without capitals start at the same place. */
  lemma NameAligns(x: string, y: string, k: string, v: string, w: string)
    requires !NoCapital(k) && NoCapital(v) && NoCapital(w) && x + k + v == y + k + w
    ensures x == y && v == w
  {
    if |x| < |y| {
      NameNotLater(x, y, k, v, w);
    } else if |y| < |x| {
      NameNotLater(y, x, k, w, v);
    } else {
      assert (x + k + v)[..|x|] == x && (y + k + w)[..|x|] == y;
      assert (x + k + v)[|x + k|..] == v && (y + k + w)[|x + k|..] == w;
    }
  }

  lemma NoCapitalAfter(x: string, k: string, v: string, j: nat)
    requires j < |k| && NoCapital(k[j + 1..]) && NoCapital(v)
    ensures forall p :: |x| + j < p < |x + k + v| ==> !IsUpper((x + k + v)[p])
  {
    forall p | |x| + j < p < |x + k + v| ensures !IsUpper((x + k + v)[p]) {
      if p < |x + k| {
        assert (x + k + v)[p] == k[j + 1..][p - |x| - j - 1];
      } else {
        assert (x + k + v)[p] == v[p - |x + k|];
      }
    }
  }

  lemma NameNotLater(x: string, y: string, k: string, v: string, w: string)
    requires !NoCapital(k) && NoCapital(v) && x + k + v == y + k + w
    ensures |x| >= |y|
  {
    var j := LastCapital(k);
    NoCapitalAfter(x, k, v, j);
    assert IsUpper((y + k + w)[|y| + j]);
  }

  /** Where every nominated name but the first in byte order has a capital and its values, as those
      of fields normalized to lower case, have none, the text determines all values. */
  lemma {:induction false} LowerSeparates(keys: seq<string>, m: map<string, string>, n: map<string, string>)
    requires forall k :: k in keys ==> k in m && k in n
    requires forall i :: 0 < i < |keys| ==> !NoCapital(keys[i]) && NoCapital(m[keys[i]]) && NoCapital(n[keys[i]])
    requires Text(keys, m) == Text(keys, n)
    ensures forall k :: k in keys ==> m[k] == n[k]
  {
    var l := |keys| - 1;
    if l == 0 {
      assert keys[..0] == [];
      assert Text(keys, m)[|keys[0]|..] == m[keys[0]] && Text(keys, n)[|keys[0]|..] == n[keys[0]];
    } else if l > 0 {
      assert keys[l] in keys;
      NameAligns(Text(keys[..l], m), Text(keys[..l], n), keys[l], m[keys[l]], n[keys[l]]);
      LowerSeparates(keys[..l], m, n);
      assert forall k :: k in keys ==> k in keys[..l] || k == keys[l];
    }
  }
}
