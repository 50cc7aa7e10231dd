/**
  Comma-separated field values: the splitter of `internal/helpers.go`, which does not
  split inside quoted strings, and its inverse, printing with ", ".
 */
module Csv {
  import opened Base

  /** The part just completed, trimmed; nothing when only whitespace is left. */
  function Emit(part: string): seq<string> {
    if Trim(part) == "" then [] else [Trim(part)]
  }

  /** The parts still to come when `s` is unread and `part` is the text of the current one. */
  function Scan(s: string, part: string, inQuotes: bool, escape: bool): seq<string>
    decreases |s|
  {
    if s == "" then Emit(part)
    else if escape then Scan(s[1..], part + [s[0]], inQuotes, false)
    else if s[0] == '\\' then Scan(s[1..], part + [s[0]], inQuotes, true)
    else if s[0] == '"' then Scan(s[1..], part + [s[0]], !inQuotes, false)
    else if s[0] == ',' && !inQuotes then Emit(part) + Scan(s[1..], "", inQuotes, false)
    else Scan(s[1..], part + [s[0]], inQuotes, false)
  }

  function Split(s: string): seq<string> {
    Scan(s, "", false, false)
  }

  /** `TrimmedCSV`: one pass over the bytes with a builder, a quote flag and an escape flag. */
  method TrimmedCSV(s: string) returns (parts: seq<string>)
    ensures parts == Split(s)
  {
    parts := [];
    var part, inQuotes, escape := "", false, false;
    for i := 0 to |s|
      invariant Split(s) == parts + Scan(s[i..], part, inQuotes, escape)
    {
      var c := s[i];
      assert s[i..][1..] == s[i + 1..];
      if escape {
        part := part + [c];
        escape := false;
      } else if c == '\\' {
        part := part + [c];
        escape := true;
      } else if c == '"' {
        part := part + [c];
        inQuotes := !inQuotes;
      } else if c == ',' && !inQuotes {
        var p := Trim(part);
        if |p| > 0 {
          parts := parts + [p];
        }
        part := "";
      } else {
        part := part + [c];
      }
    }
    assert s[|s|..] == "";
    if |part| > 0 {
      var p := Trim(part);
      if |p| > 0 {
        parts := parts + [p];
      }
    }
  }

  // ----- Printing and splitting back -----

  /** Where the splitter stands after reading `s`, or None when it met a separator. */
  function After(s: string, inQuotes: bool, escape: bool): Option<(bool, bool)>
    decreases |s|
  {
    if s == "" then Some((inQuotes, escape))
    else if escape then After(s[1..], inQuotes, false)
    else if s[0] == '\\' then After(s[1..], inQuotes, true)
    else if s[0] == '"' then After(s[1..], !inQuotes, false)
    else if s[0] == ',' && !inQuotes then None
    else After(s[1..], inQuotes, false)
  }

  /** A list element the splitter hands back whole: it has no separator outside quotes,
      leaves no quote or escape open, is not empty, and has no outer whitespace. */
  predicate IsElement(s: string) {
    s != "" && !IsSpace(s[0]) && !IsSpace(s[|s| - 1]) && After(s, false, false) == Some((false, false))
  }

  function Join(parts: seq<string>, separator: string): string {
    if |parts| == 0 then ""
    else if |parts| == 1 then parts[0]
    else parts[0] + separator + Join(parts[1..], separator)
  }

  /** Reading text without a separator only moves it into the current part. */
  lemma {:induction false} ScanPassesThrough(s: string, rest: string, part: string, inQuotes: bool, escape: bool)
    requires After(s, inQuotes, escape).Some?
    ensures var (q, e) := After(s, inQuotes, escape).value;
            Scan(s + rest, part, inQuotes, escape) == Scan(rest, part + s, q, e)
    decreases |s|
  {
    if s == "" {
      assert s + rest == rest && part + s == part;
    } else {
      var c := s[0];
      assert (s + rest)[1..] == s[1..] + rest;
      assert part + [c] + s[1..] == part + s;
      var quotes := if !escape && c == '"' then !inQuotes else inQuotes;
      ScanPassesThrough(s[1..], rest, part + [c], quotes, !escape && c == '\\');
    }
  }

  lemma TrimElement(s: string)
    requires s != "" && !IsSpace(s[0]) && !IsSpace(s[|s| - 1])
    ensures Trim(s) == s
    ensures Trim(" " + s) == s
  {
    assert (" " + s)[1..] == s;
  }

  lemma EmitElement(lead: string, p: string)
    requires IsElement(p) && (lead == "" || lead == " ")
    ensures Emit(lead + p) == [p]
  {
    TrimElement(p);
    assert "" + p == p;
  }

  /** Splitting undoes printing: any list of elements joined with ", " is handed back. */
  lemma {:induction false} SplitJoin(parts: seq<string>)
    requires forall i :: 0 <= i < |parts| ==> IsElement(parts[i])
    ensures Split(Join(parts, ", ")) == parts
  {
    if |parts| > 0 {
      SplitJoinAfter(parts, "");
    }
  }

  lemma ScanSeparator(part: string, tail: string)
    ensures Scan(", " + tail, part, false, false) == Emit(part) + Scan(tail, " ", false, false)
  {
    var rest := ", " + tail;
    assert rest[1..] == " " + tail && (" " + tail)[1..] == tail && "" + [' '] == " ";
    assert Scan(" " + tail, "", false, false) == Scan(tail, " ", false, false);
  }

  lemma ScanOne(p: string, lead: string, tail: string)
    requires IsElement(p) && (lead == "" || lead == " ")
    ensures Scan(p + (", " + tail), lead, false, false) == [p] + Scan(tail, " ", false, false)
  {
    ScanPassesThrough(p, ", " + tail, lead, false, false);
    ScanSeparator(lead + p, tail);
    EmitElement(lead, p);
  }

  lemma {:induction false} SplitJoinAfter(parts: seq<string>, lead: string)
    requires |parts| > 0
    requires forall i :: 0 <= i < |parts| ==> IsElement(parts[i])
    requires lead == "" || lead == " "
    ensures Scan(Join(parts, ", "), lead, false, false) == parts
    decreases |parts|
  {
    var p := parts[0];
    assert IsElement(p);
    EmitElement(lead, p);
    if |parts| == 1 {
      ScanPassesThrough(p, "", lead, false, false);
      assert p + "" == p;
      assert parts == [p];
    } else {
      var tail := Join(parts[1..], ", ");
      assert Join(parts, ", ") == p + (", " + tail) by {
        assert p + ", " + tail == p + (", " + tail);
      }
      ScanOne(p, lead, tail);
      SplitJoinAfter(parts[1..], " ");
      assert parts == [p] + parts[1..];
    }
  }

  lemma {:induction false} AfterAppend(s: string, t: string, q: bool, e: bool)
    requires After(s, q, e).Some?
    ensures var (q', e') := After(s, q, e).value;
            After(s + t, q, e) == After(t, q', e')
    decreases |s|
  {
    if s == "" {
      assert s + t == t;
    } else {
      assert (s + t)[1..] == s[1..] + t;
      var quotes := if !e && s[0] == '"' then !q else q;
      AfterAppend(s[1..], t, quotes, !e && s[0] == '\\');
    }
  }

  /** Text without a quote, a backslash or a comma passes whole, whether quoted or not. */
  lemma {:induction false} PlainKeeps(s: string, inQuotes: bool, escape: bool)
    requires s != "" && forall i :: 0 <= i < |s| ==> s[i] !in {'"', '\\', ','}
    ensures After(s, inQuotes, escape) == Some((inQuotes, false))
    decreases |s|
  {
    assert s[0] !in {'"', '\\', ','};
    if |s| == 1 {
      assert s[1..] == "";
    } else {
      PlainKeeps(s[1..], inQuotes, false);
    }
  }

  lemma PlainPasses(s: string)
    requires forall i :: 0 <= i < |s| ==> s[i] !in {'"', '\\', ','}
    ensures After(s, false, false) == Some((false, false))
  {
    if s != "" {
      PlainKeeps(s, false, false);
    }
  }

  /** A token is an element. */
  lemma TokenIsElement(s: string)
    requires IsToken(s)
    ensures IsElement(s)
  {
    forall i | 0 <= i < |s| ensures s[i] !in {'"', '\\', ','} {
      assert IsTokenChar(s[i]);
    }
    PlainPasses(s);
  }

  // ----- The first separator -----

  /** Where the splitter meets its first separator. */
  lemma {:induction false} FirstSeparator(s: string, inQuotes: bool, escape: bool) returns (i: nat)
    requires After(s, inQuotes, escape).None?
    ensures i < |s| && s[i] == ',' && After(s[..i], inQuotes, escape) == Some((false, false))
    decreases |s|
  {
    if !escape && s[0] == ',' && !inQuotes {
      i := 0;
    } else {
      var quotes := if !escape && s[0] == '"' then !inQuotes else inQuotes;
      var k := FirstSeparator(s[1..], quotes, !escape && s[0] == '\\');
      i := k + 1;
      assert s[..i][1..] == s[1..][..k] && s[..i][0] == s[0];
    }
  }

  /** Splitting goes separator by separator. */
  lemma SplitAtSeparator(s: string, i: nat)
    requires i < |s| && s[i] == ',' && After(s[..i], false, false) == Some((false, false))
    ensures Split(s) == Emit(s[..i]) + Split(s[i + 1..])
  {
    var rest := s[i..];
    assert s == s[..i] + rest && "" + s[..i] == s[..i];
    ScanPassesThrough(s[..i], rest, "", false, false);
    assert rest[1..] == s[i + 1..];
  }

  lemma SplitWhole(s: string)
    requires After(s, false, false).Some?
    ensures Split(s) == Emit(s)
  {
    ScanPassesThrough(s, "", "", false, false);
    assert s + "" == s && "" + s == s;
  }

  // ----- Several lines as one -----

  /** The splitter's flags after the whole text, separators included. */
  function Ends(s: string, inQuotes: bool, escape: bool): (bool, bool)
    decreases |s|
  {
    if s == "" then (inQuotes, escape)
    else if escape then Ends(s[1..], inQuotes, false)
    else if s[0] == '\\' then Ends(s[1..], inQuotes, true)
    else if s[0] == '"' then Ends(s[1..], !inQuotes, false)
    else Ends(s[1..], inQuotes, false)
  }

  /** The text leaves no quote and no escape open. */
  predicate Closed(s: string) {
    Ends(s, false, false) == (false, false)
  }

  lemma {:induction false} ScanClosed(a: string, b: string, part: string, inQuotes: bool, escape: bool)
    requires Ends(a, inQuotes, escape) == (false, false)
    ensures Scan(a + "," + b, part, inQuotes, escape) == Scan(a, part, inQuotes, escape) + Split(b)
    decreases |a|
  {
    var s := a + "," + b;
    if a == "" {
      assert s[0] == ',' && s[1..] == b;
    } else {
      assert s[0] == a[0] && s[1..] == a[1..] + "," + b;
      var c := a[0];
      if escape || c == '\\' || c == '"' || c != ',' || inQuotes {
        var quotes := if !escape && c == '"' then !inQuotes else inQuotes;
        ScanClosed(a[1..], b, part + [c], quotes, !escape && c == '\\');
      } else {
        ScanClosed(a[1..], b, "", inQuotes, false);
        AppendThree(Emit(part), Scan(a[1..], "", inQuotes, false), Split(b));
      }
    }
  }

  lemma AppendThree(a: seq<string>, b: seq<string>, c: seq<string>)
    ensures a + (b + c) == a + b + c
  {
  }

  /** The elements of all lines, line by line. */
  function SplitAll(lines: seq<string>): seq<string> {
    if lines == [] then [] else Split(lines[0]) + SplitAll(lines[1..])
  }

  /** Lines that leave no quote open, joined with a comma, are one list of all their elements. */
  lemma {:induction false} SplitLines(lines: seq<string>)
    requires forall i :: 0 <= i < |lines| ==> Closed(lines[i])
    ensures Split(Join(lines, ",")) == SplitAll(lines)
  {
    if |lines| == 1 {
      assert lines[1..] == [];
    } else if |lines| > 1 {
      SplitLines(lines[1..]);
      ScanClosed(lines[0], Join(lines[1..], ","), "", false, false);
    }
  }

  lemma {:induction false} SplitAllHas(lines: seq<string>, part: string)
    ensures part in SplitAll(lines) <==> exists i :: 0 <= i < |lines| && part in Split(lines[i])
  {
    if lines != [] {
      SplitAllHas(lines[1..], part);
      if part in SplitAll(lines[1..]) {
        var i :| 0 <= i < |lines[1..]| && part in Split(lines[1..][i]);
        assert part in Split(lines[i + 1]);
      }
      forall i | 0 < i < |lines| && part in Split(lines[i]) ensures part in SplitAll(lines[1..]) {
        assert part in Split(lines[1..][i - 1]);
      }
    }
  }

  // ----- Blanks around elements -----

  predicate AllBlank(s: string) {
    forall i :: 0 <= i < |s| ==> s[i] in {' ', '\t', '\n', '\r'}
  }

  lemma {:induction false} TrimLeftBlank(lead: string, p: string)
    requires AllBlank(lead)
    ensures TrimLeft(lead + p) == TrimLeft(p)
  {
    if lead == "" {
      assert lead + p == p;
    } else {
      assert lead[0] in {' ', '\t', '\n', '\r'};
      assert (lead + p)[1..] == lead[1..] + p;
      TrimLeftBlank(lead[1..], p);
    }
  }

  lemma {:induction false} TrimRightBlank(p: string, trail: string)
    requires AllBlank(trail)
    ensures TrimRight(p + trail) == TrimRight(p)
    decreases |trail|
  {
    if trail == "" {
      assert p + trail == p;
    } else {
      var n := |trail| - 1;
      assert trail[n] in {' ', '\t', '\n', '\r'};
      assert (p + trail)[..|p + trail| - 1] == p + trail[..n];
      TrimRightBlank(p, trail[..n]);
    }
  }

  /** Blanks, tabs and line ends around a text go, everything else stays. */
  lemma TrimPadded(lead: string, p: string, trail: string)
    requires AllBlank(lead) && AllBlank(trail) && p != ""
    requires p[0] !in {' ', '\t', '\n', '\r'} && p[|p| - 1] !in {' ', '\t', '\n', '\r'}
    ensures Trim(lead + p + trail) == p
  {
    assert lead + p + trail == lead + (p + trail);
    TrimLeftBlank(lead, p + trail);
    assert TrimLeft(p + trail) == p + trail;
    TrimRightBlank(p, trail);
  }

  // ----- Printing with a comma alone -----

  lemma {:induction false} ElementClosed(s: string, inQuotes: bool, escape: bool)
    requires After(s, inQuotes, escape).Some?
    ensures After(s, inQuotes, escape) == Some(Ends(s, inQuotes, escape))
    decreases |s|
  {
    if s != "" {
      ElementClosed(s[1..], if !escape && s[0] == '"' then !inQuotes else inQuotes, !escape && s[0] == '\\');
    }
  }

  lemma SplitElement(p: string)
    requires IsElement(p)
    ensures Split(p) == [p] && Closed(p)
  {
    assert Join([p], ", ") == p;
    SplitJoin([p]);
    ElementClosed(p, false, false);
  }

  /** Splitting undoes that too. */
  lemma {:induction false} SplitJoinComma(parts: seq<string>)
    requires forall i :: 0 <= i < |parts| ==> IsElement(parts[i])
    ensures Split(Join(parts, ",")) == parts
  {
    forall i | 0 <= i < |parts| ensures Closed(parts[i]) {
      SplitElement(parts[i]);
    }
    SplitLines(parts);
    SplitAllElements(parts);
  }

  lemma {:induction false} SplitAllElements(parts: seq<string>)
    requires forall i :: 0 <= i < |parts| ==> IsElement(parts[i])
    ensures SplitAll(parts) == parts
  {
    if parts != [] {
      SplitElement(parts[0]);
      SplitAllElements(parts[1..]);
      assert parts == [parts[0]] + parts[1..];
    }
  }
}
