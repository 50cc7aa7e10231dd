/**
  The quoted-string of section 5.6.4 of RFC 9110: the parser of
  `internal/quotedstring.go` and the printer it inverts.
 */
module QuotedString {
  import opened Base
  import Csv

  datatype ParseError = NotQuoted | UnfinishedEscape | InvalidCharacter(position: nat)

  datatype Outcome = Ok(text: string) | Err(error: ParseError)

  /** `validQDTextByte` */
  predicate IsQdText(c: char) {
    c == '\t' || c == ' ' || c == '!' || '\U{23}' <= c <= '\U{5B}' || '\U{5D}' <= c <= '\U{7E}' || '\U{80}' <= c
  }

  /** Unescapes the text between the quotes; `at` is the offset of `s` in it. */
  function Unescape(s: string, at: nat): Outcome {
    if s == "" then Ok("")
    else if s[0] == '\\' then
      if |s| == 1 then Err(UnfinishedEscape) else Prefix(s[1], Unescape(s[2..], at + 2))
    else if IsQdText(s[0]) then Prefix(s[0], Unescape(s[1..], at + 1))
    else Err(InvalidCharacter(at + 1))
  }

  function Prefix(c: char, rest: Outcome): Outcome {
    match rest
    case Ok(text) => Ok([c] + text)
    case Err(_) => rest
  }

  predicate IsDelimited(s: string) {
    |s| >= 2 && s[0] == '"' && s[|s| - 1] == '"'
  }

  function ParseE(s: string): Outcome {
    if !IsDelimited(s) then Err(NotQuoted) else Unescape(s[1..|s| - 1], 0)
  }

  /** `ParseQuotedString`: the text, or the input itself when it is not a quoted-string. */
  function Parse(s: string): string {
    match ParseE(s)
    case Ok(text) => text
    case Err(_) => s
  }

  function Append(done: string, rest: Outcome): Outcome {
    match rest
    case Ok(text) => Ok(done + text)
    case Err(_) => rest
  }

  /** `ParseQuotedStringE`: an index loop that fills a builder. */
  method ParseQuotedStringE(s: string) returns (result: Outcome)
    ensures result == ParseE(s)
  {
    if |s| < 2 || s[0] != '"' || s[|s| - 1] != '"' {
      return Err(NotQuoted);
    }
    var text := s[1..|s| - 1];
    var b, i := "", 0;
    while i < |text|
      invariant 0 <= i <= |text|
      invariant ParseE(s) == Append(b, Unescape(text[i..], i))
    {
      var c := text[i];
      if c == '\\' {
        i := i + 1;
        if i >= |text| {
          return Err(UnfinishedEscape);
        }
        assert text[i - 1..][2..] == text[i + 1..];
        b := b + [text[i]];
        i := i + 1;
      } else if IsQdText(c) {
        assert text[i..][1..] == text[i + 1..];
        b := b + [c];
        i := i + 1;
      } else {
        return Err(InvalidCharacter(i + 1));
      }
    }
    assert text[i..] == "";
    return Ok(b);
  }

  // ----- Printing -----

  /** Any text can be quoted: a byte that is not qdtext travels as a quoted-pair. */
  function Escape(text: string): string {
    if text == "" then ""
    else (if IsQdText(text[0]) then [text[0]] else ['\\', text[0]]) + Escape(text[1..])
  }

  function Print(text: string): string {
    "\"" + Escape(text) + "\""
  }

  /** Parsing undoes printing, for every byte string. */
  lemma {:induction false} UnescapeEscape(text: string, at: nat)
    ensures Unescape(Escape(text), at) == Ok(text)
  {
    if text != "" {
      var e := Escape(text[1..]);
      if IsQdText(text[0]) {
        assert Escape(text)[1..] == e;
        UnescapeEscape(text[1..], at + 1);
      } else {
        assert Escape(text)[2..] == e;
        UnescapeEscape(text[1..], at + 2);
      }
      assert [text[0]] + text[1..] == text;
    }
  }

  lemma ParsePrint(text: string)
    ensures ParseE(Print(text)) == Ok(text)
    ensures Parse(Print(text)) == text
  {
    var s := Print(text);
    assert s[1..|s| - 1] == Escape(text);
    UnescapeEscape(text, 0);
  }

  /** Bytes that stand for themselves between quotes: all but control characters other than the tab,
      the quote, the backslash and DEL. */
  predicate Verbatim(text: string) {
    forall i :: 0 <= i < |text| ==> text[i] == '\t' || (text[i] >= ' ' && text[i] !in {'"', '\\', '\U{7F}'})
  }

  lemma {:induction false} UnescapeStops(text: string, tail: string, at: nat)
    requires Verbatim(text)
    requires tail == "" || (tail[0] < ' ' && tail[0] != '\t') || tail[0] in {'"', '\U{7F}'}
    ensures Unescape(text + tail, at) == if tail == "" then Ok(text) else Err(InvalidCharacter(at + |text| + 1))
  {
    if text == "" {
      assert text + tail == tail;
    } else {
      assert (text + tail)[1..] == text[1..] + tail && [text[0]] + text[1..] == text;
      UnescapeStops(text[1..], tail, at + 1);
    }
  }

  /** A quoted text of such bytes is read as it is; any other byte but a quoted-pair makes the whole
      argument count as it was written, quotes included. */
  lemma ReadVerbatim(text: string, c: char, more: string)
    requires Verbatim(text) && ((c < ' ' && c != '\t') || c in {'"', '\U{7F}'})
    ensures Parse("\"" + text + "\"") == text
    ensures var s := "\"" + text + [c] + more + "\"";
            ParseE(s) == Err(InvalidCharacter(|text| + 1)) && Parse(s) == s
  {
    UnescapeStops(text, "", 0);
    UnescapeStops(text, [c] + more, 0);
    var s, t := "\"" + text + "\"", "\"" + text + [c] + more + "\"";
    assert s[1..|s| - 1] == text + "" == text && t[1..|t| - 1] == text + ([c] + more);
  }

  /** The printed form is a single list element, whatever commas and quotes the text holds. */
  lemma {:induction false} EscapePasses(text: string)
    ensures Csv.After(Escape(text), true, false) == Some((true, false))
  {
    if text != "" {
      var e := Escape(text[1..]);
      EscapePasses(text[1..]);
      if IsQdText(text[0]) {
        assert Escape(text)[1..] == e;
      } else {
        assert Escape(text)[1..] == [text[0]] + e;
        assert ([text[0]] + e)[1..] == e;
      }
    }
  }
}
