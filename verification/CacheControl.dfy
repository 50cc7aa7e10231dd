/**
  Cache-Control directives (section 5.2 of RFC 9111): the parser and the accessors of
  `internal/ccdirectives.go`. Names are compared byte for byte, and only the value
  handed over (the first field line) is read.
 */
module CacheControl {
  import opened Base
  import Csv
  import QuotedString

  type Directives = map<string, string>

  // ----- Parsing -----

  /** One list element as a (name, argument) pair; the name is not trimmed before '='. */
  function Directive(part: string): (string, string) {
    var i := FirstIndex(part, '=');
    if i < |part| then (part[..i], Trim(part[i + 1..])) else (Trim(part), "")
  }

  /** The pairs of a list of elements, in order, without those that have no name. */
  function Pairs(parts: seq<string>): seq<(string, string)> {
    if parts == [] then []
    else
      var d := Directive(parts[0]);
      (if d.0 == "" then [] else [d]) + Pairs(parts[1..])
  }

  /** A later pair replaces an earlier one of the same name. */
  function Collect(pairs: seq<(string, string)>): Directives {
    if pairs == [] then map[]
    else Collect(pairs[..|pairs| - 1])[pairs[|pairs| - 1].0 := pairs[|pairs| - 1].1]
  }

  function Parse(s: string): Directives {
    Collect(Pairs(Csv.Split(s)))
  }

  lemma {:induction false} PairsAppend(parts: seq<string>, part: string)
    ensures Pairs(parts + [part]) == Pairs(parts) + Pairs([part])
  {
    if parts == [] {
      assert parts + [part] == [part];
    } else {
      var d := Directive(parts[0]);
      var first := if d.0 == "" then [] else [d];
      assert (parts + [part])[1..] == parts[1..] + [part] && (parts + [part])[0] == parts[0];
      PairsAppend(parts[1..], part);
      assert first + (Pairs(parts[1..]) + Pairs([part])) == first + Pairs(parts[1..]) + Pairs([part]);
    }
  }

  /** What reading one more element does to the map. */
  lemma CollectNext(parts: seq<string>, part: string)
    ensures var d := Directive(part);
            var before := Collect(Pairs(parts));
            Collect(Pairs(parts + [part])) == if d.0 == "" then before else before[d.0 := d.1]
  {
    PairsAppend(parts, part);
    assert [part][1..] == [];
    var d := Directive(part);
    if d.0 != "" {
      var pairs := Pairs(parts + [part]);
      assert pairs == Pairs(parts) + [d];
      assert pairs[..|pairs| - 1] == Pairs(parts);
    } else {
      assert Pairs(parts + [part]) == Pairs(parts);
    }
  }

  /** `parseDirectives`: collects the pairs into a map while iterating over the elements. */
  method ParseDirectives(s: string) returns (d: Directives)
    ensures d == Parse(s)
  {
    var parts := Csv.TrimmedCSV(s);
    d := map[];
    for i := 0 to |parts|
      invariant d == Collect(Pairs(parts[..i]))
    {
      CollectNext(parts[..i], parts[i]);
      assert parts[..i] + [parts[i]] == parts[..i + 1];
      var pair := Directive(parts[i]);
      if |pair.0| > 0 {
        d := d[pair.0 := pair.1];
      }
    }
    assert parts[..|parts|] == parts;
  }

  // ----- Accessors -----

  /** `RawDeltaSeconds.Value`: seconds to nanoseconds in 64 bits, so 9223372037 and up wrap. */
  function DeltaSeconds(s: string): Option<Duration> {
    if s == "" || s[0] == '-' then None
    else
      match ParseInt(s)
      case Number(n) => Some(Wrap64(n * SECOND))
      case _ => None
  }

  function DurationOf(d: Directives, token: string): Option<Duration> {
    if token in d then DeltaSeconds(d[token]) else None
  }

  function MaxAge(d: Directives): Option<Duration> { DurationOf(d, "max-age") }

  function MinFresh(d: Directives): Option<Duration> { DurationOf(d, "min-fresh") }

  function StaleIfError(d: Directives): Option<Duration> { DurationOf(d, "stale-if-error") }

  function StaleWhileRevalidate(d: Directives): Option<Duration> { DurationOf(d, "stale-while-revalidate") }

  /** The extra staleness a request accepts: none, any (no argument), or the given amount. */
  function MaxStale(d: Directives): Duration {
    if "max-stale" !in d then 0
    else if d["max-stale"] == "" then MAX_DURATION
    else
      match DeltaSeconds(d["max-stale"])
      case Some(v) => if v >= 0 then v else 0
      case None => 0
  }

  predicate NoCache(d: Directives) { "no-cache" in d }

  predicate NoStore(d: Directives) { "no-store" in d }

  predicate OnlyIfCached(d: Directives) { "only-if-cached" in d }

  predicate MustRevalidate(d: Directives) { "must-revalidate" in d }

  predicate MustUnderstand(d: Directives) { "must-understand" in d }

  predicate Public(d: Directives) { "public" in d }

  predicate Immutable(d: Directives) { "immutable" in d }

  predicate MaxAgePresent(d: Directives) { "max-age" in d }

  /** The raw argument of a response no-cache, unquoted; "" when it has none. */
  function NoCacheFields(d: Directives): string {
    if NoCache(d) then QuotedString.Parse(d["no-cache"]) else ""
  }

  /** A no-cache with a non-empty argument only restricts the listed fields. */
  predicate NoCacheQualified(d: Directives) { NoCacheFields(d) != "" }

  predicate NoCacheUnqualified(d: Directives) { NoCache(d) && !NoCacheQualified(d) }

  // ----- Printing and parsing back -----

  datatype Argument = Absent | Token(token: string) | Quoted(text: string)

  datatype Item = Item(name: string, argument: Argument)

  predicate ValidItem(item: Item) {
    IsToken(item.name) && (item.argument.Token? ==> IsToken(item.argument.token))
  }

  function PrintArgument(a: Argument): string {
    match a
    case Absent => ""
    case Token(t) => t
    case Quoted(text) => QuotedString.Print(text)
  }

  function PrintItem(item: Item): string {
    if item.argument.Absent? then item.name else item.name + "=" + PrintArgument(item.argument)
  }

  function PrintItems(items: seq<Item>): seq<string> {
    seq(|items|, i requires 0 <= i < |items| => PrintItem(items[i]))
  }

  function Print(items: seq<Item>): string {
    Csv.Join(PrintItems(items), ", ")
  }

  function ItemPair(item: Item): (string, string) {
    (item.name, PrintArgument(item.argument))
  }

  /** A printed quoted-string opens and closes its own quotes. */
  lemma QuotedPasses(text: string)
    ensures Csv.After(QuotedString.Print(text), false, false) == Some((false, false))
  {
    var e := QuotedString.Escape(text);
    assert QuotedString.Print(text)[1..] == e + "\"";
    QuotedString.EscapePasses(text);
    Csv.AfterAppend(e, "\"", true, false);
    assert "\""[1..] == "";
  }

  /** A token followed by '=' is cut there. */
  lemma {:induction false} CutToken(name: string, rest: string)
    requires forall i :: 0 <= i < |name| ==> IsTokenChar(name[i])
    ensures FirstIndex(name + "=" + rest, '=') == |name|
    ensures FirstIndex(name, '=') == |name|
  {
    if name != "" {
      assert IsTokenChar(name[0]);
      assert (name + "=" + rest)[1..] == name[1..] + "=" + rest;
      CutToken(name[1..], rest);
    }
  }

  /** A printed argument keeps its outer bytes under trimming and closes its quotes. */
  lemma PrintedArgument(a: Argument)
    requires !a.Absent?
    requires a.Token? ==> IsToken(a.token)
    ensures Csv.IsElement(PrintArgument(a))
  {
    match a
    case Token(t) => Csv.TokenIsElement(t);
    case Quoted(text) => QuotedPasses(text);
  }

  lemma ElementWithArgument(name: string, a: string)
    requires IsToken(name) && Csv.IsElement(a)
    ensures Csv.IsElement(name + "=" + a)
  {
    Csv.TokenIsElement(name);
    assert name + "=" + a == name + ("=" + a);
    Csv.AfterAppend(name, "=" + a, false, false);
    assert ("=" + a)[1..] == a;
  }

  lemma DirectiveWithArgument(name: string, a: string)
    requires IsToken(name) && Csv.IsElement(a)
    ensures Directive(name + "=" + a) == (name, a)
  {
    var p := name + "=" + a;
    CutToken(name, a);
    assert p[..|name|] == name && p[|name| + 1..] == a;
    Csv.TrimElement(a);
  }

  /** A printed directive is one list element and reads back as its name and raw argument. */
  lemma PrintedItem(item: Item)
    requires ValidItem(item)
    ensures Csv.IsElement(PrintItem(item))
    ensures Directive(PrintItem(item)) == ItemPair(item)
  {
    if item.argument.Absent? {
      CutToken(item.name, "");
      Csv.TokenIsElement(item.name);
      Csv.TrimElement(item.name);
    } else {
      PrintedArgument(item.argument);
      ElementWithArgument(item.name, PrintArgument(item.argument));
      DirectiveWithArgument(item.name, PrintArgument(item.argument));
    }
  }

  lemma {:induction false} PairsOfItems(items: seq<Item>)
    requires forall i :: 0 <= i < |items| ==> ValidItem(items[i])
    ensures Pairs(PrintItems(items)) == seq(|items|, i requires 0 <= i < |items| => ItemPair(items[i]))
  {
    if items != [] {
      PrintedItem(items[0]);
      assert PrintItems(items)[1..] == PrintItems(items[1..]);
      PairsOfItems(items[1..]);
    }
  }

  /** Blanks around an argument do not count, but one before '=' belongs to the name. */
  lemma DirectiveBlanks(name: string, lead: string, a: string, trail: string)
    requires IsToken(name) && Csv.IsElement(a) && Csv.AllBlank(lead) && Csv.AllBlank(trail)
    ensures Directive(name + "=" + (lead + a + trail)) == (name, a)
    ensures Directive(name + " =" + a).0 == name + " "
  {
    CutToken(name, lead + a + trail);
    var p := name + "=" + (lead + a + trail);
    assert p[..|name|] == name && p[|name| + 1..] == lead + a + trail;
    Csv.TrimPadded(lead, a, trail);
    var q := name + " =" + a;
    assert q[|name| + 1] == '=' && q[..|name| + 1] == name + " ";
    assert FirstIndex(q, '=') == |name| + 1 by {
      assert forall i :: 0 <= i < |name| ==> q[i] == name[i] && IsTokenChar(name[i]);
    }
  }

  /** Parsing undoes printing: the names and raw arguments come back, in order. */
  lemma PrintParse(items: seq<Item>)
    requires forall i :: 0 <= i < |items| ==> ValidItem(items[i])
    ensures Pairs(Csv.Split(Print(items))) == seq(|items|, i requires 0 <= i < |items| => ItemPair(items[i]))
  {
    forall i | 0 <= i < |items| ensures Csv.IsElement(PrintItems(items)[i]) {
      PrintedItem(items[i]);
    }
    Csv.SplitJoin(PrintItems(items));
    PairsOfItems(items);
  }

  /** What the map keeps of a list of pairs: the last argument given for each name. */
  lemma {:induction false} CollectLast(pairs: seq<(string, string)>, k: nat)
    requires k < |pairs|
    requires forall j :: k < j < |pairs| ==> pairs[j].0 != pairs[k].0
    ensures pairs[k].0 in Collect(pairs) && Collect(pairs)[pairs[k].0] == pairs[k].1
    decreases |pairs|
  {
    if k < |pairs| - 1 {
      assert pairs[|pairs| - 1].0 != pairs[k].0;
      CollectLast(pairs[..|pairs| - 1], k);
    }
  }

  /** A printed directive can be looked up: the map holds the last argument of its name. */
  lemma LookupPrinted(items: seq<Item>, k: nat)
    requires forall i :: 0 <= i < |items| ==> ValidItem(items[i])
    requires k < |items|
    requires forall j :: k < j < |items| ==> items[j].name != items[k].name
    ensures items[k].name in Parse(Print(items))
    ensures Parse(Print(items))[items[k].name] == PrintArgument(items[k].argument)
  {
    PrintParse(items);
    var pairs := Pairs(Csv.Split(Print(items)));
    assert pairs[k] == ItemPair(items[k]);
    forall j | k < j < |pairs| ensures pairs[j].0 != pairs[k].0 {
      assert pairs[j] == ItemPair(items[j]);
    }
    CollectLast(pairs, k);
  }

  /** A line of one directive gives a map of one. */
  lemma ParseOne(item: Item)
    requires ValidItem(item)
    ensures Parse(PrintItem(item)) == map[item.name := PrintArgument(item.argument)]
  {
    var items := [item];
    assert PrintItems(items) == [PrintItem(item)];
    assert Print(items) == PrintItem(item);
    PrintParse(items);
    var pairs := [ItemPair(item)];
    assert Pairs(Csv.Split(PrintItem(item))) == pairs;
    assert pairs[..0] == [] && Collect(pairs[..0]) == map[];
  }

  lemma ParseTwo(a: Item, b: Item)
    requires ValidItem(a) && ValidItem(b)
    ensures Parse(Print([a, b])) == map[a.name := PrintArgument(a.argument)][b.name := PrintArgument(b.argument)]
  {
    PrintParse([a, b]);
    var pairs := [ItemPair(a), ItemPair(b)];
    assert Pairs(Csv.Split(Print([a, b]))) == pairs;
    assert pairs[..1] == [ItemPair(a)] && pairs[..1][..0] == [];
    assert Collect(pairs[..1][..0]) == map[];
    assert Collect(pairs[..1]) == map[a.name := PrintArgument(a.argument)];
  }

  /** A field list printed inside no-cache="..." comes back as exactly the listed names,
      whatever other directives surround it. */
  lemma NoCacheFieldsRoundTrip(items: seq<Item>, k: nat, fields: seq<string>)
    requires forall i :: 0 <= i < |items| ==> ValidItem(items[i])
    requires k < |items|
    requires items[k] == Item("no-cache", Quoted(Csv.Join(fields, ", ")))
    requires forall j :: k < j < |items| ==> items[j].name != "no-cache"
    requires |fields| > 0
    requires forall i :: 0 <= i < |fields| ==> IsToken(fields[i])
    ensures NoCacheQualified(Parse(Print(items)))
    ensures Csv.Split(NoCacheFields(Parse(Print(items)))) == fields
  {
    LookupPrinted(items, k);
    QuotedString.ParsePrint(Csv.Join(fields, ", "));
    forall i | 0 <= i < |fields| ensures Csv.IsElement(fields[i]) {
      Csv.TokenIsElement(fields[i]);
    }
    Csv.SplitJoin(fields);
    assert Csv.Split("") == [];
  }

  /** The seconds a duration directive carries, when they fit in 64 bits of nanoseconds;
      from 9223372037 on the product wraps and the duration is no longer the one sent. */
  lemma DeltaSecondsExact(s: string)
    requires s != "" && s[0] != '-' && ParseInt(s).Number?
    ensures ParseInt(s).n >= 0
    ensures DeltaSeconds(s) == Some(ParseInt(s).n * SECOND) <==> ParseInt(s).n <= 9223372036
  {
  }

  /** The first value past the limit becomes a negative duration. */
  lemma DeltaSecondsWraps()
    ensures ParseInt("9223372037") == Number(9223372037)
    ensures DeltaSeconds("9223372037").Some? && DeltaSeconds("9223372037").value < 0
  {
    assert "9223372037"[1..][1..] == "23372037" && "23372037"[1..][1..] == "372037";
    assert "372037"[1..][1..] == "2037" && "2037"[1..][1..] == "37" && "37"[1..][1..] == "";
    assert ScanDigits("37", 92233720) == Number(9223372037);
    assert ScanDigits("2037", 922337) == ScanDigits("37", 92233720);
    assert ScanDigits("372037", 9223) == ScanDigits("2037", 922337);
    assert ScanDigits("23372037", 92) == ScanDigits("372037", 9223);
    assert ScanDigits("9223372037", 0) == ScanDigits("23372037", 92);
  }
}
