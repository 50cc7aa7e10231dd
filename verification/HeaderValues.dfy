/**
  `normalizeHeaderValue` of `internal/normalization.go`: which canonical form a request field
  gets, by its canonical name, and what that makes Vary matching insensitive to.
 */
module HeaderValues {
  import opened Base
  import opened Ordering
  import opened Normalization
  import opened Http
  import Csv
  import Encodings
  import Vary
  import VaryHash

  /** The sorts and conversions of the standard library. */
  datatype Tools = Tools(
    parse: string -> Option<real>,
    format: real -> string,
    sort: seq<string> -> seq<string>,
    sortQ: seq<Quality> -> seq<Quality>)

  ghost predicate Correct(tools: Tools) {
    Sorts(CompareStrings, tools.sort) && Sorts(COMPARE, tools.sortQ)
  }

  const BY_ENCODING: set<string> := {"Content-Encoding", "Accept-Encoding", "TE"}
  const BY_QUALITY: set<string> := {"Accept", "Accept-Charset", "Accept-Language"}
  const ANY_ORDER: set<string> :=
    {"Cache-Control", "Connection", "Content-Language", "Expect", "Pragma", "Upgrade", "Vary", "Via"}
  const ANY_CASE: set<string> :=
    {"Content-Type", "Content-Disposition", "Host", "Referer", "User-Agent", "Server", "Origin"}
  const BY_TIME: set<string> := {"If-Modified-Since", "If-Unmodified-Since", "Date"}

  function NormalizeValue(tools: Tools, field: string, value: string): string {
    if value == "" then ""
    else if field in BY_ENCODING then
      var encodings := NormalizeList(tools.sort, Encodings.Replace(value));
      if field == "Content-Encoding" then encodings
      else NormalizeQ(tools.parse, tools.format, tools.sort, tools.sortQ, encodings)
    else if field in BY_QUALITY then NormalizeQ(tools.parse, tools.format, tools.sort, tools.sortQ, value)
    else if field in ANY_ORDER then NormalizeList(tools.sort, value)
    else if field in ANY_CASE then LowerCase(value)
    else if field in BY_TIME then DropBlanks(value)
    else if field == "Authorization" then
      var i := FirstIndex(value, ' ');
      if i < |value| then LowerCase(value[..i]) + value[i..] else value
    else value
  }

  /** The fields whose values are lists without an order. */
  predicate IsUnorderedList(field: string) {
    field in {"Accept", "Accept-Charset", "Accept-Language", "Accept-Encoding", "Content-Encoding", "Cache-Control",
              "Connection", "Content-Language", "Expect", "Pragma", "Upgrade", "Vary", "Via"}
  }

  lemma UnorderedClasses(field: string)
    requires IsUnorderedList(field)
    ensures field in BY_ENCODING || field in BY_QUALITY || field in ANY_ORDER
  {
  }

  /** The order of list elements does not count in any field that is normalized as a list, with
      quality values, content codings or neither. */
  lemma OrderDoesNotCount(tools: Tools, field: string, v: string, w: string)
    requires Correct(tools) && IsUnorderedList(field)
    requires v != "" && w != "" && multiset(Csv.Split(v)) == multiset(Csv.Split(w))
    ensures NormalizeValue(tools, field, v) == NormalizeValue(tools, field, w)
  {
    UnorderedClasses(field);
    if field in BY_ENCODING {
      Encodings.ReplaceAllPermuted(Csv.Split(v), Csv.Split(w));
      AliasesDoNotCount(tools, field, v, w);
    } else {
      ClassesDisjoint(field);
      QValuesCanonical(tools.parse, tools.format, tools.sort, tools.sortQ, tools.sortQ, v, w);
      ListCanonical(tools.sort, tools.sort, v, w);
    }
  }

  /** In the fields of content codings neither order nor the choice between a name and its alias
      counts: lists with the same elements after replacing have one normal form. */
  lemma AliasesDoNotCount(tools: Tools, field: string, v: string, w: string)
    requires Correct(tools) && field in BY_ENCODING && v != "" && w != ""
    requires multiset(Encodings.ReplaceAll(Csv.Split(v))) == multiset(Encodings.ReplaceAll(Csv.Split(w)))
    ensures NormalizeValue(tools, field, v) == NormalizeValue(tools, field, w)
  {
    Encodings.SplitReplaced(v);
    Encodings.SplitReplaced(w);
    ListCanonical(tools.sort, tools.sort, Encodings.Replace(v), Encodings.Replace(w));
  }

  lemma ClassesDisjoint(field: string)
    requires field in BY_QUALITY + ANY_ORDER
    ensures field !in BY_ENCODING
    ensures field in BY_QUALITY ==> field !in ANY_ORDER
  {
    assert |"Accept"| == 6 && |"Accept-Encoding"| == 15 && |"Content-Encoding"| == 16 && |"TE"| == 2;
    assert "Accept-Language"[7] == 'L' && "Accept-Encoding"[7] == 'E';
    assert "Content-Language"[8] == 'L' && "Content-Encoding"[8] == 'E';
  }

  /** The fields compared without case have normal forms without capitals, so among them only the
      first in byte order could be confused in the hashed text. */
  lemma NoCapitals(tools: Tools, field: string, v: string)
    requires field in ANY_CASE
    ensures VaryHash.NoCapital(NormalizeValue(tools, field, v))
  {
    CaseClass(field);
  }

  /** What tells the names compared without case from all other names of the tables. */
  predicate CaseShape(k: string) {
    k != "" && (|k| == 12 || |k| == 19 || k[0] in {'H', 'R', 'S', 'O'} || (|k| == 10 && k[0] == 'U'))
  }

  lemma CaseShapes(k: string)
    requires k in ANY_CASE
    ensures CaseShape(k)
  {
  }

  lemma ListShapes(k: string)
    requires k in BY_ENCODING + BY_QUALITY
    ensures !CaseShape(k)
  {
  }

  lemma OrderShapes(k: string)
    requires k in ANY_ORDER
    ensures !CaseShape(k)
  {
  }

  lemma CaseClass(field: string)
    requires field in ANY_CASE
    ensures field !in BY_ENCODING && field !in BY_QUALITY && field !in ANY_ORDER
  {
    CaseShapes(field);
    if field in BY_ENCODING + BY_QUALITY {
      ListShapes(field);
    }
    if field in ANY_ORDER {
      OrderShapes(field);
    }
  }

  /** So two requests that list the same media types, languages, charsets or codings in any order
      get the same stored variant: whatever matches one matches the other. */
  lemma PermutedRequestMatches(lib: Library, tools: Tools, ref: Ref, h: Header, field: string, v: string, w: string)
    requires Correct(tools) && IsUnorderedList(field)
    requires forall f, s :: lib.normalizeValue(f, s) == NormalizeValue(tools, f, s)
    requires v != "" && w != "" && multiset(Csv.Split(v)) == multiset(Csv.Split(w))
    ensures Vary.Matches(lib, ref, h[field := [v]]) <==> Vary.Matches(lib, ref, h[field := [w]])
  {
    OrderDoesNotCount(tools, field, v, w);
    SameNormalMatches(lib, ref, h, field, v, w);
  }

  lemma SameNormalMatches(lib: Library, ref: Ref, h: Header, field: string, v: string, w: string)
    requires lib.normalizeValue(field, v) == lib.normalizeValue(field, w)
    ensures Vary.Matches(lib, ref, h[field := [v]]) <==> Vary.Matches(lib, ref, h[field := [w]])
  {
    forall f | f in ref.resolved
      ensures Vary.Normalized(lib, h[field := [v]], f) == Vary.Normalized(lib, h[field := [w]], f)
    {
      if f == field {
        assert Values(h[field := [v]], f) == [v] && Values(h[field := [w]], f) == [w];
      }
    }
  }

  /** The table lists "TE", but names arrive in canonical form, "Te": that field is compared as
      it is, so two of its values have one normal form only when they are the same. */
  lemma TeNotNormalized(tools: Tools, v: string, w: string)
    ensures NormalizeValue(tools, CanonicalKey("TE"), v) == v
    ensures NormalizeValue(tools, CanonicalKey("TE"), v) == NormalizeValue(tools, CanonicalKey("TE"), w) <==> v == w
  {
    var s := "TE";
    assert forall i :: 0 <= i < |s| ==> IsTokenChar(s[i]);
    assert CanonicalKey(s) == "Te";
    TeNotListed();
    assert |"Te"| != |"Authorization"|;
  }

  /** An input: the same two codings in two orders. */
  lemma TeOrderCounts(tools: Tools)
    ensures multiset(Csv.Split("gzip, deflate")) == multiset(Csv.Split("deflate, gzip"))
    ensures NormalizeValue(tools, CanonicalKey("TE"), "gzip, deflate")
            != NormalizeValue(tools, CanonicalKey("TE"), "deflate, gzip")
  {
    CodingsSplit();
    assert multiset(["gzip", "deflate"]) == multiset(["deflate", "gzip"]);
    assert "gzip, deflate"[0] != "deflate, gzip"[0];
    TeNotNormalized(tools, "gzip, deflate", "deflate, gzip");
  }

  lemma CodingsSplit()
    ensures Csv.Split("gzip, deflate") == ["gzip", "deflate"]
    ensures Csv.Split("deflate, gzip") == ["deflate", "gzip"]
  {
    assert "gzip" + ", " + "deflate" == "gzip, deflate" && "deflate" + ", " + "gzip" == "deflate, gzip";
    TwoElements("gzip", "deflate");
    TwoElements("deflate", "gzip");
  }

  lemma TwoElements(a: string, b: string)
    requires IsToken(a) && IsToken(b)
    ensures Csv.Split(a + ", " + b) == [a, b]
  {
    Csv.TokenIsElement(a);
    Csv.TokenIsElement(b);
    assert Csv.Join([b], ", ") == b && [a, b][1..] == [b];
    Csv.SplitJoin([a, b]);
  }

  lemma TeNotListed()
    ensures "Te" !in BY_ENCODING && "Te" !in BY_QUALITY && "Te" !in ANY_ORDER && "Te" !in ANY_CASE && "Te" !in BY_TIME
  {
    assert "Te"[1] != "TE"[1];
    assert forall k :: k in BY_ENCODING ==> |k| != 2 || k == "TE";
    assert forall k :: k in BY_QUALITY ==> |k| != 2;
    assert forall k :: k in ANY_ORDER ==> |k| != 2;
    assert forall k :: k in ANY_CASE ==> |k| != 2;
    assert forall k :: k in BY_TIME ==> |k| != 2;
  }

  lemma PlainForm(tools: Tools, field: string, v: string)
    requires field in {"Cache-Control", "Connection", "Content-Language", "Expect", "Pragma", "Upgrade", "Vary", "Via"}
    requires Sorts(CompareStrings, tools.sort)
    ensures NormalizeValue(tools, field, v) == NormalizeList(tools.sort, v)
  {
    assert field in ANY_ORDER;
    ClassesDisjoint(field);
    assert field !in BY_QUALITY;
    if v == "" {
      NothingListed(tools.sort);
    }
  }

  lemma NothingListed(sort: seq<string> -> seq<string>)
    requires Sorts(CompareStrings, sort)
    ensures NormalizeList(sort, "") == ""
  {
    assert SortOf(CompareStrings, sort([]), []);
    assert multiset(sort([])) == multiset{} && |multiset(sort([]))| == 0;
    assert Csv.Split("") == [];
  }

  /** In the plain list fields two values of clean elements have one normal form exactly when they list
      the same elements, each as often. */
  lemma PlainFormIff(tools: Tools, field: string, v: string, w: string)
    requires field in {"Cache-Control", "Connection", "Content-Language", "Expect", "Pragma", "Upgrade", "Vary", "Via"}
    requires Sorts(CompareStrings, tools.sort)
    requires forall p :: p in Csv.Split(v) + Csv.Split(w) ==> Csv.IsElement(p)
    ensures NormalizeValue(tools, field, v) == NormalizeValue(tools, field, w) <==>
            multiset(Csv.Split(v)) == multiset(Csv.Split(w))
  {
    PlainForm(tools, field, v);
    PlainForm(tools, field, w);
    ListFormIff(tools.sort, v, w);
  }

  /** In Content-Encoding likewise, with the aliases replaced. */
  lemma CodingFormIff(tools: Tools, v: string, w: string)
    requires Sorts(CompareStrings, tools.sort)
    requires forall p :: p in Encodings.ReplaceAll(Csv.Split(v)) + Encodings.ReplaceAll(Csv.Split(w)) ==>
               Csv.IsElement(p)
    ensures NormalizeValue(tools, "Content-Encoding", v) == NormalizeValue(tools, "Content-Encoding", w) <==>
            multiset(Encodings.ReplaceAll(Csv.Split(v))) == multiset(Encodings.ReplaceAll(Csv.Split(w)))
  {
    NothingListed(tools.sort);
    Encodings.SplitReplaced(v);
    Encodings.SplitReplaced(w);
    ListFormIff(tools.sort, Encodings.Replace(v), Encodings.Replace(w));
  }

  /** In the fields with quality values an element of quality 0 does not count. */
  lemma ZeroNotAccepted(tools: Tools, field: string, main: string)
    requires field in {"Accept", "Accept-Charset", "Accept-Language", "Accept-Encoding"} && Correct(tools)
    requires ';' !in main && Csv.IsElement(main + ";q=0") && Encodings.Replace(main + ";q=0") == main + ";q=0"
    ensures NormalizeValue(tools, field, main + ";q=0") == ""
  {
    var v := main + ";q=0";
    OneListed(tools.sort, v);
    ZeroForm(tools, main);
    if field != "Accept-Encoding" {
      assert field in BY_QUALITY;
      ClassesDisjoint(field);
    }
  }

  lemma OneListed(sort: seq<string> -> seq<string>, v: string)
    requires Sorts(CompareStrings, sort) && Csv.IsElement(v)
    ensures Csv.Split(v) == [v] && NormalizeList(sort, v) == v
  {
    assert Csv.Join([v], ", ") == v;
    Csv.SplitJoin([v]);
    StringsTotal();
    SortFixes(CompareStrings, sort, [v]);
    assert Csv.Join([v], ",") == v;
  }

  lemma ZeroForm(tools: Tools, main: string)
    requires Correct(tools) && ';' !in main && Csv.IsElement(main + ";q=0")
    ensures NormalizeQ(tools.parse, tools.format, tools.sort, tools.sortQ, main + ";q=0") == ""
  {
    var v := main + ";q=0";
    OneListed(tools.sort, v);
    ZeroDropped(tools.parse, tools.sort, main);
    assert [v][1..] == [] && ReadParts(tools.parse, tools.sort, [v]) == [];
    CompareTotal();
    SortFixes(COMPARE, tools.sortQ, []);
  }

  // ----- The other fields -----

  predicate IgnoresCase(field: string) {
    field in {"Content-Type", "Content-Disposition", "Host", "Referer", "User-Agent", "Server", "Origin"}
  }

  lemma CaseNames(field: string)
    requires IgnoresCase(field)
    ensures field in ANY_CASE
  {
  }

  /** In these fields two values have one normal form exactly when they differ in the case of letters
      at most. */
  lemma CaseFormIff(tools: Tools, field: string, v: string, w: string)
    requires IgnoresCase(field)
    ensures NormalizeValue(tools, field, v) == NormalizeValue(tools, field, w) <==> SameButCase(v, w)
  {
    CaseNames(field);
    CaseClass(field);
    LowerCaseIff(v, w);
    assert |LowerCase(v)| == |v| && |LowerCase(w)| == |w|;
  }

  predicate IsTime(field: string) {
    field in {"If-Modified-Since", "If-Unmodified-Since", "Date"}
  }

  lemma TimeClass(field: string)
    requires IsTime(field)
    ensures field in BY_TIME
    ensures field !in BY_ENCODING && field !in BY_QUALITY && field !in ANY_ORDER && field !in ANY_CASE
  {
    assert |field| in {17, 19, 4} && field[0] in {'I', 'D'};
    assert forall k :: k in BY_ENCODING + BY_QUALITY + ANY_ORDER + ANY_CASE ==> k[0] !in {'I', 'D'};
  }

  /** In the fields that hold a time blanks around it do not count. */
  lemma TimeForm(tools: Tools, field: string, lead: string, p: string, trail: string)
    requires IsTime(field)
    requires AllBlanks(lead) && AllBlanks(trail) && p != ""
    requires p[0] !in {' ', '\t', '\n', '\r', '\U{B}', '\U{C}'} &&
             p[|p| - 1] !in {' ', '\t', '\n', '\r', '\U{B}', '\U{C}'}
    ensures NormalizeValue(tools, field, lead + p + trail) == p
  {
    TimeClass(field);
    BlanksDropped(lead, p, trail);
  }

  /** Authorization: the scheme ignores case, the credentials do not, nor does a value without a blank. */
  lemma CredentialsFormIff(tools: Tools, scheme: string, credentials: string, scheme': string, credentials': string)
    requires ' ' !in scheme && ' ' !in scheme'
    ensures NormalizeValue(tools, "Authorization", scheme + " " + credentials)
            == NormalizeValue(tools, "Authorization", scheme' + " " + credentials') <==>
            SameButCase(scheme, scheme') && credentials == credentials'
    ensures NormalizeValue(tools, "Authorization", scheme) == scheme
  {
    AuthorizationClass();
    assert FirstIndex(scheme, ' ') == |scheme|;
    CredentialsForm(tools, scheme, credentials);
    CredentialsForm(tools, scheme', credentials');
    LowerCaseIff(scheme, scheme');
    var s, t := LowerCase(scheme) + " " + credentials, LowerCase(scheme') + " " + credentials';
    if s == t {
      LowerNoBlank(scheme);
      LowerNoBlank(scheme');
      BlankAligns(LowerCase(scheme), credentials, LowerCase(scheme'), credentials');
    }
  }

  lemma BlankAligns(a: string, c: string, b: string, d: string)
    requires ' ' !in a && ' ' !in b && a + " " + c == b + " " + d
    ensures a == b && c == d
  {
    FirstBlank(a, c);
    FirstBlank(b, d);
    var s := a + " " + c;
    assert s[..|a|] == a && s[|a| + 1..] == c && (b + " " + d)[..|b|] == b && (b + " " + d)[|b| + 1..] == d;
  }

  lemma FirstBlank(a: string, c: string)
    requires ' ' !in a
    ensures FirstIndex(a + " " + c, ' ') == |a|
  {
    var s := a + " " + c;
    assert s[|a|] == ' ';
    assert forall i :: 0 <= i < |a| ==> s[i] == a[i] && a[i] in a;
  }

  lemma LowerNoBlank(s: string)
    requires ' ' !in s
    ensures ' ' !in LowerCase(s)
  {
    forall i | 0 <= i < |s| ensures LowerCase(s)[i] != ' ' {
      assert s[i] in s;
    }
  }

  lemma CredentialsForm(tools: Tools, scheme: string, credentials: string)
    requires ' ' !in scheme
    ensures NormalizeValue(tools, "Authorization", scheme + " " + credentials)
            == LowerCase(scheme) + " " + credentials
  {
    var v := scheme + " " + credentials;
    AuthorizationClass();
    FirstBlank(scheme, credentials);
    assert v[..|scheme|] == scheme && v[|scheme|..] == " " + credentials;
  }

  lemma AuthorizationClass()
    ensures "Authorization" !in BY_ENCODING && "Authorization" !in BY_QUALITY && "Authorization" !in ANY_ORDER
    ensures "Authorization" !in ANY_CASE && "Authorization" !in BY_TIME
  {
    assert |"Authorization"| == 13 && "Authorization"[0] == 'A';
    assert forall k :: k in BY_ENCODING + BY_QUALITY + ANY_CASE + BY_TIME ==> |k| != 13;
    assert forall k :: k in ANY_ORDER ==> k[0] != 'A';
  }

  /** A field of none of these kinds is compared as it is. */
  lemma OtherFieldForm(tools: Tools, field: string, v: string)
    requires !IsUnorderedList(field) && !IgnoresCase(field) && !IsTime(field) && field !in {"Authorization", "TE"}
    ensures NormalizeValue(tools, field, v) == v
  {
  }
}
