/**
  Registered names for content codings (section 8.4.1.3 of RFC 9110): the replacer that
  `normalizeEncodingHeader` of `internal/normalization.go` runs over the whole field value, and
  the proof that it works element by element.
 */
module Encodings {
  import opened Base
  import Csv
  import Normalization

  const X_GZIP: string := "x-gzip"
  const X_COMPRESS: string := "x-compress"

  /** The text the replacer reads next, and what it writes for it. */
  function Head(s: string): (string, string)
    requires s != ""
  {
    if X_GZIP <= s then (X_GZIP, "gzip")
    else if X_COMPRESS <= s then (X_COMPRESS, "compress")
    else ([s[0]], [s[0]])
  }

  /** `encodingReplacer.Replace`: from left to right, without overlaps. */
  function Replace(s: string): string
    decreases |s|
  {
    if s == "" then "" else Head(s).1 + Replace(s[|Head(s).0|..])
  }

  predicate IsAliasChar(c: char) { IsLower(c) || c == '-' }

  predicate AliasText(s: string) {
    s != "" && forall i :: 0 <= i < |s| ==> IsAliasChar(s[i])
  }

  /** Either one byte is copied, or a name is replaced by a name. */
  lemma HeadKinds(s: string)
    requires s != ""
    ensures Head(s).0 <= s && s == Head(s).0 + s[|Head(s).0|..]
    ensures Head(s) == ([s[0]], [s[0]]) || (AliasText(Head(s).0) && AliasText(Head(s).1))
  {
  }

  lemma PrefixBeforeStop(p: string, a: string, c: char, rest: string)
    requires AliasText(p) && !IsAliasChar(c)
    ensures p <= a + [c] + rest <==> p <= a
  {
    var s := a + [c] + rest;
    if |a| < |p| {
      assert IsAliasChar(p[|a|]) && s[|a|] == c;
    }
    if p <= a {
      assert s[..|p|] == a[..|p|];
    }
    if p <= s && |p| <= |a| {
      assert a[..|p|] == s[..|p|];
    }
  }

  lemma HeadBeforeStop(a: string, c: char, rest: string)
    requires a != "" && !IsAliasChar(c)
    ensures Head(a + [c] + rest) == Head(a)
  {
    PrefixBeforeStop(X_GZIP, a, c, rest);
    PrefixBeforeStop(X_COMPRESS, a, c, rest);
  }

  lemma HeadAtStop(c: char, rest: string)
    requires !IsAliasChar(c)
    ensures Head([c] + rest) == ([c], [c])
  {
    PrefixBeforeStop(X_GZIP, "", c, rest);
    PrefixBeforeStop(X_COMPRESS, "", c, rest);
    assert "" + [c] + rest == [c] + rest;
  }

  lemma Regroup(w: string, a: string, c: char, rest: string)
    ensures w + (a + [c] + rest) == w + a + [c] + rest
  {
  }

  /** No name reaches across a byte that is in none. */
  lemma {:induction false} ReplaceAtStop(a: string, c: char, rest: string)
    requires !IsAliasChar(c)
    ensures Replace(a + [c] + rest) == Replace(a) + [c] + Replace(rest)
    decreases |a|
  {
    var s := a + [c] + rest;
    if a == "" {
      HeadAtStop(c, rest);
      assert s == [c] + rest && s[1..] == rest;
    } else {
      HeadKinds(a);
      HeadBeforeStop(a, c, rest);
      var n := |Head(a).0|;
      assert s[n..] == a[n..] + [c] + rest;
      ReplaceAtStop(a[n..], c, rest);
      Regroup(Head(a).1, Replace(a[n..]), c, Replace(rest));
    }
  }

  /** Separators, quotes and escapes stay where they are. */
  lemma {:induction false} AfterReplaced(s: string, q: bool, e: bool)
    ensures Csv.After(Replace(s), q, e) == Csv.After(s, q, e)
    decreases |s|, 0
  {
    if s != "" {
      HeadKinds(s);
      var (read, written) := Head(s);
      var rest := s[|read|..];
      if read == written == [s[0]] {
        AfterCopied(s[0], rest, q, e);
      } else {
        AfterNamed(read, rest, q, e);
        AfterNamed(written, Replace(rest), q, e);
        AfterReplaced(rest, q, false);
      }
    }
  }

  lemma {:induction false} AfterCopied(c: char, rest: string, q: bool, e: bool)
    ensures Csv.After([c] + Replace(rest), q, e) == Csv.After([c] + rest, q, e)
    decreases |rest|, 1
  {
    assert ([c] + Replace(rest))[1..] == Replace(rest) && ([c] + rest)[1..] == rest;
    AfterReplaced(rest, if !e && c == '"' then !q else q, !e && c == '\\');
  }

  lemma AfterNamed(name: string, rest: string, q: bool, e: bool)
    requires AliasText(name)
    ensures Csv.After(name + rest, q, e) == Csv.After(rest, q, false)
  {
    Csv.PlainKeeps(name, q, e);
    Csv.AfterAppend(name, rest, q, e);
  }

  // ----- Trimming -----

  lemma {:induction false} TrimLeftReplaced(a: string)
    ensures TrimLeft(Replace(a)) == Replace(TrimLeft(a))
  {
    if a != "" {
      if IsSpace(a[0]) {
        assert a == "" + [a[0]] + a[1..];
        ReplaceAtStop("", a[0], a[1..]);
        assert Replace(a) == [a[0]] + Replace(a[1..]);
        assert Replace(a)[1..] == Replace(a[1..]);
        TrimLeftReplaced(a[1..]);
      } else {
        HeadKinds(a);
        assert Replace(a)[0] == Head(a).1[0];
      }
    }
  }

  lemma {:induction false} LastKept(a: string)
    requires a != "" && !IsSpace(a[|a| - 1])
    ensures Replace(a) != "" && !IsSpace(Replace(a)[|Replace(a)| - 1])
    decreases |a|
  {
    HeadKinds(a);
    var (read, written) := Head(a);
    var rest := a[|read|..];
    if rest == "" {
      assert Replace(rest) == "";
      assert Replace(a) == written;
    } else {
      assert rest[|rest| - 1] == a[|a| - 1];
      LastKept(rest);
      assert Replace(a)[|Replace(a)| - 1] == Replace(rest)[|Replace(rest)| - 1];
    }
  }

  lemma {:induction false} TrimRightReplaced(a: string)
    ensures TrimRight(Replace(a)) == Replace(TrimRight(a))
  {
    if a != "" {
      var n := |a| - 1;
      if IsSpace(a[n]) {
        assert a == a[..n] + [a[n]] + "";
        ReplaceAtStop(a[..n], a[n], "");
        assert Replace(a) == Replace(a[..n]) + [a[n]];
        assert Replace(a)[..|Replace(a)| - 1] == Replace(a[..n]);
        TrimRightReplaced(a[..n]);
      } else {
        LastKept(a);
      }
    }
  }

  lemma EmptyReplaced(a: string)
    ensures Replace(a) == "" <==> a == ""
  {
  }

  // ----- Element by element -----

  function ReplaceAll(parts: seq<string>): seq<string> {
    seq(|parts|, i requires 0 <= i < |parts| => Replace(parts[i]))
  }

  lemma EmitReplaced(a: string)
    ensures Csv.Emit(Replace(a)) == ReplaceAll(Csv.Emit(a))
  {
    TrimLeftReplaced(a);
    TrimRightReplaced(TrimLeft(a));
    EmptyReplaced(Trim(a));
  }

  /** What follows the first separator is split on its own, before and after replacing. */
  lemma SplitBothAt(s: string, i: nat)
    requires i < |s| && s[i] == ',' && Csv.After(s[..i], false, false) == Some((false, false))
    ensures Csv.Split(s) == Csv.Emit(s[..i]) + Csv.Split(s[i + 1..])
    ensures Csv.Split(Replace(s)) == Csv.Emit(Replace(s[..i])) + Csv.Split(Replace(s[i + 1..]))
  {
    Csv.SplitAtSeparator(s, i);
    CutReplaced(s, i);
    AfterReplaced(s[..i], false, false);
    Csv.SplitAtSeparator(Replace(s), |Replace(s[..i])|);
  }

  lemma CutReplaced(s: string, i: nat)
    requires i < |s| && s[i] == ','
    ensures var t, k := Replace(s), |Replace(s[..i])|;
            k < |t| && t[..k] == Replace(s[..i]) && t[k] == ',' && t[k + 1..] == Replace(s[i + 1..])
  {
    assert s == s[..i] + [','] + s[i + 1..];
    ReplaceAtStop(s[..i], ',', s[i + 1..]);
  }

  /** Replacing in the whole value replaces in each of its elements. */
  lemma {:induction false} SplitReplaced(s: string)
    ensures Csv.Split(Replace(s)) == ReplaceAll(Csv.Split(s))
    decreases |s|
  {
    AfterReplaced(s, false, false);
    if Csv.After(s, false, false).Some? {
      Csv.SplitWhole(s);
      Csv.SplitWhole(Replace(s));
      EmitReplaced(s);
    } else {
      var i := Csv.FirstSeparator(s, false, false);
      SplitBothAt(s, i);
      EmitReplaced(s[..i]);
      SplitReplaced(s[i + 1..]);
      ReplaceAllAppend(Csv.Emit(s[..i]), Csv.Split(s[i + 1..]));
    }
  }

  lemma ReplaceAllAppend(s: seq<string>, t: seq<string>)
    ensures ReplaceAll(s + t) == ReplaceAll(s) + ReplaceAll(t)
  {
  }

  lemma ReplaceAllMiddle(before: seq<string>, x: string, after: seq<string>)
    ensures multiset(ReplaceAll(before + [x] + after)) == multiset{Replace(x)} + multiset(ReplaceAll(before + after))
  {
    ReplaceAllAppend(before + [x], after);
    ReplaceAllAppend(before, [x]);
    ReplaceAllAppend(before, after);
    assert ReplaceAll([x]) == [Replace(x)];
    SumOfThree(ReplaceAll(before), Replace(x), ReplaceAll(after));
  }

  lemma SumOfThree(s: seq<string>, x: string, t: seq<string>)
    ensures multiset(s + [x] + t) == multiset{x} + multiset(s + t)
  {
  }

  lemma ReplaceAllAt(s: seq<string>, i: nat)
    requires i < |s|
    ensures multiset(ReplaceAll(s)) == multiset{Replace(s[i])} + multiset(ReplaceAll(s[..i] + s[i + 1..]))
  {
    ReplaceAllMiddle(s[..i], s[i], s[i + 1..]);
    assert s == s[..i] + [s[i]] + s[i + 1..];
  }

  lemma FoundIn(x: string, t: seq<string>) returns (i: nat)
    requires x in multiset(t)
    ensures i < |t| && t[i] == x
  {
    i :| 0 <= i < |t| && t[i] == x;
  }

  lemma PermutedStep(s: seq<string>, t: seq<string>, i: nat)
    requires s != [] && i < |t| && t[i] == s[0]
    requires multiset(ReplaceAll(s[1..])) == multiset(ReplaceAll(t[..i] + t[i + 1..]))
    ensures multiset(ReplaceAll(s)) == multiset(ReplaceAll(t))
  {
    ReplaceAllAt(s, 0);
    ReplaceAllAt(t, i);
    assert s[..0] + s[1..] == s[1..];
  }

  lemma {:induction false} ReplaceAllPermuted(s: seq<string>, t: seq<string>)
    requires multiset(s) == multiset(t)
    ensures multiset(ReplaceAll(s)) == multiset(ReplaceAll(t))
    decreases |s|
  {
    if s == [] {
      assert |multiset(t)| == |t|;
    } else {
      assert s[0] in multiset(s);
      var i := FoundIn(s[0], t);
      Normalization.WithoutFirst(s, t, i);
      ReplaceAllPermuted(s[1..], t[..i] + t[i + 1..]);
      PermutedStep(s, t, i);
    }
  }

  /** The two names that are replaced, and by what. */
  lemma AliasNames()
    ensures Replace("x-gzip") == "gzip" && Replace("x-compress") == "compress"
    ensures Replace("gzip") == "gzip" && Replace("br") == "br"
  {
    assert "x-compress"[2] != X_GZIP[2] && Replace("") == "";
    assert "x-gzip"[6..] == "" && "x-compress"[10..] == "";
    assert Head("x-gzip") == (X_GZIP, "gzip") && Head("x-compress") == (X_COMPRESS, "compress");
    assert "gzip"[1..] == "zip" && "zip"[1..] == "ip" && "ip"[1..] == "p" && "p"[1..] == "";
    assert Replace("p") == "p" && Replace("ip") == "ip" && Replace("zip") == "zip";
    assert "br"[1..] == "r" && "r"[1..] == "" && Replace("r") == "r";
  }
}
