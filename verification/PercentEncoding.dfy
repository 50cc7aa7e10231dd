/**
  Percent-encoding normalization of URL keys (section 6.2.2.2 of RFC 3986): the byte loop
  of `pkg/urlkey/urlkey.go`.
 */
module PercentEncoding {
  import opened Base

  // ----- Bytes -----

  predicate IsHexDigit(c: char) {
    IsDigit(c) || 'A' <= c <= 'F' || 'a' <= c <= 'f'
  }

  function FromHex(c: char): (n: int)
    ensures 0 <= n < 16
  {
    if IsDigit(c) then c as int - '0' as int
    else if 'a' <= c <= 'f' then c as int - 'a' as int + 10
    else if 'A' <= c <= 'F' then c as int - 'A' as int + 10
    else 0
  }

  function Hex(n: int): (c: char)
    requires 0 <= n < 16
    ensures IsHexDigit(c) && FromHex(c) == n && !('a' <= c <= 'f')
  {
    if n < 10 then ('0' as int + n) as char else ('A' as int + (n - 10)) as char
  }

  /** Letters of the Latin-1 block outside ASCII, which `unicode.IsLetter` accepts. */
  predicate IsLatin1Letter(b: Byte) {
    b == 0xAA || b == 0xB5 || b == 0xBA || (0xC0 <= b && b != 0xD7 && b != 0xF7)
  }

  /** `isUnreserved` of the byte taken as a rune. */
  predicate IsUnreserved(b: Byte) {
    var c := b as char;
    IsUpper(c) || IsLower(c) || IsDigit(c) || c in {'-', '.', '_', '~'} || IsLatin1Letter(b)
  }

  // ----- Units -----

  /** A string read as the loop reads it: escapes, and bytes that stand for themselves. */
  datatype Unit = Plain(c: char) | Escape(b: Byte)

  predicate StartsEscape(s: string) {
    |s| > 2 && s[0] == '%' && IsHexDigit(s[1]) && IsHexDigit(s[2])
  }

  function EscapedByte(s: string): Byte
    requires |s| > 2
  {
    FromHex(s[1]) * 16 + FromHex(s[2])
  }

  function Units(s: string): seq<Unit> {
    if s == "" then []
    else if StartsEscape(s) then [Escape(EscapedByte(s))] + Units(s[3..])
    else [Plain(s[0])] + Units(s[1..])
  }

  /** `b.WriteRune` of a byte-sized rune: UTF-8. */
  function WriteRune(b: Byte): string {
    if b < 0x80 then [b as char]
    else [(0xC0 + b / 64) as char, (0x80 + b % 64) as char]
  }

  function PercentEncodeUpper(b: Byte): string {
    ['%', Hex(b / 16), Hex(b % 16)]
  }

  function Normalized(u: Unit): string {
    match u
    case Plain(c) => [c]
    case Escape(b) => if IsUnreserved(b) then WriteRune(b) else PercentEncodeUpper(b)
  }

  function Normalize(s: string): string {
    NormalizeUnits(Units(s))
  }

  function NormalizeUnits(us: seq<Unit>): string {
    if us == [] then "" else Normalized(us[0]) + NormalizeUnits(us[1..])
  }

  lemma NormalizeEscape(s: string, i: nat)
    requires i + 2 < |s| && s[i] == '%' && IsHexDigit(s[i + 1]) && IsHexDigit(s[i + 2])
    ensures var b: Byte := FromHex(s[i + 1]) * 16 + FromHex(s[i + 2]);
            Normalize(s[i..]) == Normalized(Escape(b)) + Normalize(s[i + 3..])
  {
    assert StartsEscape(s[i..]) && s[i..][1] == s[i + 1] && s[i..][2] == s[i + 2];
    assert s[i..][3..] == s[i + 3..];
    assert Units(s[i..])[1..] == Units(s[i + 3..]);
  }

  lemma NormalizePlain(s: string, i: nat)
    requires i < |s| && !(i + 2 < |s| && s[i] == '%' && IsHexDigit(s[i + 1]) && IsHexDigit(s[i + 2]))
    ensures Normalize(s[i..]) == [s[i]] + Normalize(s[i + 1..])
  {
    assert s[i..][1..] == s[i + 1..];
    assert Units(s[i..])[1..] == Units(s[i + 1..]);
  }

  lemma Advance(done: string, piece: string, rest: string)
    ensures done + (piece + rest) == done + piece + rest
  {
  }

  /** `normalizePercentEncoding`: an index loop that fills a builder. */
  method NormalizePercentEncoding(s: string) returns (r: string)
    ensures r == Normalize(s)
  {
    r := "";
    var i := 0;
    assert s[0..] == s && "" + Normalize(s) == Normalize(s);
    while i < |s|
      invariant 0 <= i <= |s|
      invariant r + Normalize(s[i..]) == Normalize(s)
    {
      if s[i] == '%' && i + 2 < |s| && IsHexDigit(s[i + 1]) && IsHexDigit(s[i + 2]) {
        var b: Byte := FromHex(s[i + 1]) * 16 + FromHex(s[i + 2]);
        var piece := if IsUnreserved(b) then WriteRune(b) else PercentEncodeUpper(b);
        NormalizeEscape(s, i);
        Advance(r, piece, Normalize(s[i + 3..]));
        r := r + piece;
        i := i + 3;
      } else {
        NormalizePlain(s, i);
        Advance(r, [s[i]], Normalize(s[i + 1..]));
        r := r + [s[i]];
        i := i + 1;
      }
    }
    assert s[|s|..] == "" && r + "" == r;
  }

  // ----- The canonical form -----

  /** The units of a unit's normal form. */
  function Canonical(u: Unit): seq<Unit> {
    match u
    case Plain(c) => [u]
    case Escape(b) =>
      if !IsUnreserved(b) then [u]
      else if b < 0x80 then [Plain(b as char)]
      else [Plain(WriteRune(b)[0]), Plain(WriteRune(b)[1])]
  }

  function CanonicalUnits(us: seq<Unit>): seq<Unit> {
    if us == [] then [] else Canonical(us[0]) + CanonicalUnits(us[1..])
  }

  /** Every '%' starts an escape. */
  predicate WellFormed(s: string) {
    NoStray(Units(s))
  }

  predicate NoStray(us: seq<Unit>) {
    forall i :: 0 <= i < |us| ==> us[i] != Plain('%')
  }

  lemma {:induction false} CanonicalNoStray(us: seq<Unit>)
    requires NoStray(us)
    ensures NoStray(CanonicalUnits(us))
  {
    if us != [] {
      assert us[0] != Plain('%');
      CanonicalNoStray(us[1..]);
    }
  }

  lemma UnitsCons(u: Unit, rest: string)
    requires u != Plain('%')
    requires u.Escape? ==> !IsUnreserved(u.b)
    ensures Units(Normalized(u) + rest) == [u] + Units(rest)
  {
    var s := Normalized(u) + rest;
    if u.Escape? {
      assert s[1] == Hex(u.b / 16) && s[2] == Hex(u.b % 16);
      assert s[3..] == rest;
    } else {
      assert s[1..] == rest;
    }
  }

  /** Reading the normal form of well-formed units back gives their canonical units. */
  lemma {:induction false} UnitsOfNormal(us: seq<Unit>)
    requires NoStray(us)
    ensures Units(NormalizeUnits(us)) == CanonicalUnits(us)
  {
    if us != [] {
      var u, rest := us[0], NormalizeUnits(us[1..]);
      assert u != Plain('%');
      UnitsOfNormal(us[1..]);
      if u.Escape? && IsUnreserved(u.b) {
        var w := WriteRune(u.b);
        if u.b < 0x80 {
          UnitsCons(Plain(w[0]), rest);
          assert Normalized(u) == Normalized(Plain(w[0]));
        } else {
          UnitsCons(Plain(w[1]), rest);
          UnitsCons(Plain(w[0]), [w[1]] + rest);
          assert Normalized(u) + rest == [w[0]] + ([w[1]] + rest);
        }
      } else {
        UnitsCons(u, rest);
      }
    }
  }

  lemma {:induction false} CanonicalAppend(us: seq<Unit>, vs: seq<Unit>)
    ensures CanonicalUnits(us + vs) == CanonicalUnits(us) + CanonicalUnits(vs)
  {
    if us == [] {
      assert us + vs == vs;
    } else {
      assert (us + vs)[1..] == us[1..] + vs;
      CanonicalAppend(us[1..], vs);
    }
  }

  /** The normal form of canonical units is theirs alone. */
  lemma {:induction false} CanonicalFixpoint(us: seq<Unit>)
    ensures CanonicalUnits(CanonicalUnits(us)) == CanonicalUnits(us)
    ensures NormalizeUnits(CanonicalUnits(us)) == NormalizeUnits(us)
  {
    if us != [] {
      CanonicalFixpoint(us[1..]);
      CanonicalAppend(Canonical(us[0]), CanonicalUnits(us[1..]));
      NormalizeAppend(Canonical(us[0]), CanonicalUnits(us[1..]));
      CanonicalOne(us[0]);
    }
  }

  lemma CanonicalOne(u: Unit)
    ensures CanonicalUnits(Canonical(u)) == Canonical(u)
    ensures NormalizeUnits(Canonical(u)) == Normalized(u)
  {
    var c := Canonical(u);
    if |c| == 1 {
      assert c[1..] == [];
    } else {
      assert c[1..] == [c[1]] && [c[1]][1..] == [];
      assert CanonicalUnits([c[1]]) == [c[1]] && NormalizeUnits([c[1]]) == [c[1].c];
    }
  }

  lemma {:induction false} NormalizeAppend(us: seq<Unit>, vs: seq<Unit>)
    ensures NormalizeUnits(us + vs) == NormalizeUnits(us) + NormalizeUnits(vs)
  {
    if us == [] {
      assert us + vs == vs;
    } else {
      assert (us + vs)[1..] == us[1..] + vs;
      NormalizeAppend(us[1..], vs);
    }
  }

  /** Normalization is idempotent on well-formed strings. */
  lemma Idempotent(s: string)
    requires WellFormed(s)
    ensures Normalize(Normalize(s)) == Normalize(s)
    ensures WellFormed(Normalize(s))
  {
    UnitsOfNormal(Units(s));
    CanonicalFixpoint(Units(s));
    CanonicalNoStray(Units(s));
  }

  // ----- Idempotence on every string -----

  predicate IsLowerHex(c: char) { 'a' <= c <= 'f' }

  /** Every escape is of a reserved byte and in upper case. */
  predicate Stable(t: string) {
    t == "" ||
    if StartsEscape(t) then
      !IsUnreserved(EscapedByte(t)) && !IsLowerHex(t[1]) && !IsLowerHex(t[2]) && Stable(t[3..])
    else Stable(t[1..])
  }

  lemma {:induction false} NormalizeNotLonger(s: string)
    ensures |Normalize(s)| <= |s|
  {
    if s != "" {
      assert s[0..] == s;
      if StartsEscape(s) {
        NormalizeEscape(s, 0);
        NormalizeNotLonger(s[3..]);
      } else {
        NormalizePlain(s, 0);
        NormalizeNotLonger(s[1..]);
      }
    }
  }

  lemma HexAgain(c: char)
    requires IsHexDigit(c)
    ensures Hex(FromHex(c)) == c <==> !IsLowerHex(c)
  {
  }

  /** An escape at the front stays as it is when its byte is reserved and its digits are in upper
      case; an unreserved one makes the string shorter. */
  lemma FixedEscape(t: string, rest: string)
    requires StartsEscape(t) && rest == Normalize(t[3..])
    ensures Normalized(Escape(EscapedByte(t))) + rest == t <==>
            !IsUnreserved(EscapedByte(t)) && !IsLowerHex(t[1]) && !IsLowerHex(t[2]) && rest == t[3..]
  {
    var b := EscapedByte(t);
    if IsUnreserved(b) {
      NormalizeNotLonger(t[3..]);
    } else {
      SamePrefix(PercentEncodeUpper(b), rest, t);
      EscapeUpper(t);
    }
  }

  lemma EscapeUpper(t: string)
    requires StartsEscape(t)
    ensures PercentEncodeUpper(EscapedByte(t)) == t[..3] <==> !IsLowerHex(t[1]) && !IsLowerHex(t[2])
  {
    HexAgain(t[1]);
    HexAgain(t[2]);
    assert t[..3] == ['%', t[1], t[2]];
  }

  /** The strings normalization leaves alone. */
  lemma {:induction false} FixedIffStable(t: string)
    ensures Normalize(t) == t <==> Stable(t)
  {
    if t != "" {
      assert t[0..] == t;
      if StartsEscape(t) {
        NormalizeEscape(t, 0);
        FixedIffStable(t[3..]);
        FixedEscape(t, Normalize(t[3..]));
      } else {
        NormalizePlain(t, 0);
        FixedIffStable(t[1..]);
        SamePrefix([t[0]], Normalize(t[1..]), t);
      }
    }
  }

  lemma SamePrefix(piece: string, rest: string, t: string)
    requires |piece| <= |t|
    ensures piece + rest == t <==> piece == t[..|piece|] && rest == t[|piece|..]
  {
    assert (piece + rest)[..|piece|] == piece && (piece + rest)[|piece|..] == rest;
    assert t == t[..|piece|] + t[|piece|..];
  }

  /** The hex digit the unit is written as, if it is one. */
  function Glyph(u: Unit): (g: Option<char>)
    ensures g.Some? ==> IsHexDigit(g.value) && Normalized(u) == [g.value]
  {
    match u
    case Plain(c) => if IsHexDigit(c) then Some(c) else None
    case Escape(b) => if b < 0x80 && IsHexDigit(b as char) then Some(b as char) else None
  }

  /** A '%' that starts no escape, written before two hex digits that make one with it, and one
      the next normalization changes: of an unreserved byte, or with a digit in lower case. */
  predicate Clash(us: seq<Unit>, i: nat) {
    i + 2 < |us| && us[i] == Plain('%') &&
    var (x, y) := (Glyph(us[i + 1]), Glyph(us[i + 2]));
    x.Some? && y.Some? &&
    (IsUnreserved(FromHex(x.value) * 16 + FromHex(y.value)) || IsLowerHex(x.value) || IsLowerHex(y.value))
  }

  predicate NoClash(us: seq<Unit>) {
    forall i: nat :: i < |us| ==> !Clash(us, i)
  }

  lemma ClashTail(us: seq<Unit>)
    requires us != []
    ensures NoClash(us) <==> !Clash(us, 0) && NoClash(us[1..])
  {
    forall i: nat | i < |us| - 1 ensures Clash(us, i + 1) <==> Clash(us[1..], i) {
    }
    if NoClash(us[1..]) && !Clash(us, 0) {
      forall i: nat | i < |us| ensures !Clash(us, i) {
        if i > 0 {
          assert Clash(us, i - 1 + 1) <==> Clash(us[1..], i - 1);
        }
      }
    }
    if NoClash(us) {
      forall i: nat | i < |us| - 1 ensures !Clash(us[1..], i) {
        assert !Clash(us, i + 1);
      }
    }
  }

  /** Written units start with a hex digit exactly when the first of them is one. */
  lemma FirstGlyph(us: seq<Unit>)
    ensures var t := NormalizeUnits(us);
            (t != "" && IsHexDigit(t[0]) <==> us != [] && Glyph(us[0]).Some?) &&
            (us != [] && Glyph(us[0]).Some? ==> t[0] == Glyph(us[0]).value && t[1..] == NormalizeUnits(us[1..]))
  {
    if us != [] {
      assert NormalizeUnits(us)[0] == Normalized(us[0])[0];
      if Glyph(us[0]).Some? {
        assert NormalizeUnits(us) == [Glyph(us[0]).value] + NormalizeUnits(us[1..]);
      }
    }
  }

  /** A '%' before written units starts an escape exactly when two hex digits come first. */
  lemma StrayStarts(us: seq<Unit>)
    requires us != [] && us[0] == Plain('%')
    ensures var t := NormalizeUnits(us);
            (StartsEscape(t) <==> |us| > 2 && Glyph(us[1]).Some? && Glyph(us[2]).Some?) &&
            (StartsEscape(t) ==>
                t[1] == Glyph(us[1]).value && t[2] == Glyph(us[2]).value && t[3..] == NormalizeUnits(us[3..]))
  {
    var t := NormalizeUnits(us);
    assert t == "%" + NormalizeUnits(us[1..]);
    assert t[1..] == NormalizeUnits(us[1..]);
    FirstGlyph(us[1..]);
    if |us| > 1 && Glyph(us[1]).Some? {
      assert us[1..][1..] == us[2..];
      assert t[2..] == t[1..][1..] == NormalizeUnits(us[2..]);
      FirstGlyph(us[2..]);
      if |us| > 2 && Glyph(us[2]).Some? {
        assert us[2..][1..] == us[3..];
        assert t[3..] == t[2..][1..];
      }
    }
  }

  lemma StableCons(c: char, rest: string)
    requires c != '%'
    ensures Stable([c] + rest) <==> Stable(rest)
  {
    assert ([c] + rest)[1..] == rest;
  }

  /** A unit that is no stray '%' does not hinder what is written after it. */
  lemma StableAfter(u: Unit, rest: string)
    requires u != Plain('%')
    ensures Stable(Normalized(u) + rest) <==> Stable(rest)
  {
    if u.Plain? {
      StableCons(u.c, rest);
    } else if !IsUnreserved(u.b) {
      assert (Normalized(u) + rest)[3..] == rest;
    } else {
      var w := WriteRune(u.b);
      if u.b < 0x80 {
        StableCons(w[0], rest);
      } else {
        StableCons(w[1], rest);
        StableCons(w[0], [w[1]] + rest);
        assert w + rest == [w[0]] + ([w[1]] + rest);
      }
    }
  }

  lemma {:induction false} StableIffNoClash(us: seq<Unit>)
    ensures Stable(NormalizeUnits(us)) <==> NoClash(us)
    decreases |us|
  {
    if us != [] {
      ClashTail(us);
      if us[0] != Plain('%') {
        StableAfter(us[0], NormalizeUnits(us[1..]));
        StableIffNoClash(us[1..]);
      } else {
        StrayIffNoClash(us);
      }
    }
  }

  lemma {:induction false} StrayIffNoClash(us: seq<Unit>)
    requires us != [] && us[0] == Plain('%')
    ensures Stable(NormalizeUnits(us)) <==> NoClash(us)
    decreases |us|, 0
  {
    var t := NormalizeUnits(us);
    StrayStarts(us);
    ClashTail(us);
    if StartsEscape(t) {
      ClashTail(us[1..]);
      ClashTail(us[1..][1..]);
      assert us[1..][1..][1..] == us[3..];
      assert us[1] != Plain('%') && us[2] != Plain('%');
      StableIffNoClash(us[3..]);
    } else {
      assert t[1..] == NormalizeUnits(us[1..]);
      StableIffNoClash(us[1..]);
    }
  }

  /** Normalization is idempotent on a string if and only if no stray '%' comes to stand before
      two hex digits that make an escape with it which has a normal form of its own. */
  lemma IdempotentIff(s: string)
    ensures Normalize(Normalize(s)) == Normalize(s) <==> NoClash(Units(s))
  {
    FixedIffStable(Normalize(s));
    StableIffNoClash(Units(s));
  }

  /** An input for which it is not: the stray '%' forms an escape with what follows it. */
  lemma StrayNotIdempotent()
    ensures Normalize("%%341") == "%41" && Normalize("%41") == "A"
  {
    var s := "%%341";
    assert s[1..] == "%341" && "%341"[3..] == "1" && "1"[1..] == "";
    assert Units("1") == [Plain('1')];
    assert EscapedByte("%341") == 0x34;
    assert Units("%341") == [Escape(0x34)] + Units("1");
    assert Units(s) == [Plain('%')] + Units("%341") == [Plain('%'), Escape(0x34), Plain('1')];
    assert [Plain('%'), Escape(0x34), Plain('1')][1..] == [Escape(0x34), Plain('1')];
    assert [Escape(0x34), Plain('1')][1..] == [Plain('1')] && [Plain('1')][1..] == [];
    assert NormalizeUnits([Plain('1')]) == "1";
    assert NormalizeUnits([Escape(0x34), Plain('1')]) == "41";
    assert "%41"[3..] == "" && EscapedByte("%41") == 0x41;
    assert Units("%41") == [Escape(0x41)] && [Escape(0x41)][1..] == [];
  }

  // ----- Equal keys -----

  /** The unit is a hex digit that stands for itself, in upper case. */
  predicate UpperDigit(u: Unit) {
    u.Plain? && IsHexDigit(u.c) && !IsLowerHex(u.c)
  }

  /** The list starts with a '%' and two digits that spell a reserved byte in its normal form. */
  predicate SpellsEscape(us: seq<Unit>) {
    |us| > 2 && us[0] == Plain('%') && UpperDigit(us[1]) && UpperDigit(us[2]) &&
    !IsUnreserved(FromHex(us[1].c) * 16 + FromHex(us[2].c))
  }

  /** What canonical units and a spelled-out escape have in common: the escape. */
  function Fold(us: seq<Unit>): seq<Unit> {
    if us == [] then []
    else if SpellsEscape(us) then [Escape(FromHex(us[1].c) * 16 + FromHex(us[2].c))] + Fold(us[3..])
    else [us[0]] + Fold(us[1..])
  }

  /** Escapes of reserved bytes in upper case, read off a text. */
  function Folded(t: string): seq<Unit> {
    if t == "" then []
    else if StartsEscape(t) && !IsUnreserved(EscapedByte(t)) && !IsLowerHex(t[1]) && !IsLowerHex(t[2])
    then [Escape(EscapedByte(t))] + Folded(t[3..])
    else [Plain(t[0])] + Folded(t[1..])
  }

  predicate IsCanonical(us: seq<Unit>) {
    forall i :: 0 <= i < |us| ==> us[i].Escape? ==> !IsUnreserved(us[i].b)
  }

  lemma {:induction false} CanonicalIsCanonical(us: seq<Unit>)
    ensures IsCanonical(CanonicalUnits(us))
  {
    if us != [] {
      CanonicalIsCanonical(us[1..]);
    }
  }

  lemma FoldedEscape(b: Byte, rest: string)
    requires !IsUnreserved(b)
    ensures Folded(PercentEncodeUpper(b) + rest) == [Escape(b)] + Folded(rest)
  {
    var t := PercentEncodeUpper(b) + rest;
    assert t[1] == Hex(b / 16) && t[2] == Hex(b % 16) && t[3..] == rest;
  }

  lemma FoldedPlain(c: char, rest: string)
    requires c != '%'
    ensures Folded([c] + rest) == [Plain(c)] + Folded(rest)
  {
    assert ([c] + rest)[1..] == rest;
  }

  /** A stray '%' before what is written: folded exactly when the units spell an escape. */
  lemma FoldedStray(us: seq<Unit>)
    requires us != [] && us[0] == Plain('%') && IsCanonical(us)
    ensures var t := NormalizeUnits(us);
            Folded(t) == if SpellsEscape(us) then [Escape(FromHex(us[1].c) * 16 + FromHex(us[2].c))]
              + Folded(NormalizeUnits(us[3..]))
                         else [us[0]] + Folded(NormalizeUnits(us[1..]))
  {
    var t := NormalizeUnits(us);
    StrayStarts(us);
    assert t == "%" + NormalizeUnits(us[1..]) && t[1..] == NormalizeUnits(us[1..]);
    if StartsEscape(t) {
      CanonicalGlyph(us, 1);
      CanonicalGlyph(us, 2);
    }
  }

  /** Among canonical units only plain digits are written as digits. */
  lemma CanonicalGlyph(us: seq<Unit>, i: nat)
    requires IsCanonical(us) && i < |us| && Glyph(us[i]).Some?
    ensures us[i] == Plain(Glyph(us[i]).value)
  {
  }

  lemma {:induction false} FoldedWritten(us: seq<Unit>)
    requires IsCanonical(us)
    ensures Folded(NormalizeUnits(us)) == Fold(us)
    decreases |us|
  {
    if us != [] {
      if us[0].Escape? {
        FoldedEscape(us[0].b, NormalizeUnits(us[1..]));
        FoldedWritten(us[1..]);
      } else if us[0].c != '%' {
        FoldedPlain(us[0].c, NormalizeUnits(us[1..]));
        FoldedWritten(us[1..]);
      } else {
        FoldedStray(us);
        if SpellsEscape(us) {
          FoldedWritten(us[3..]);
        } else {
          FoldedWritten(us[1..]);
        }
      }
    }
  }

  /** A text is what its folded units write. */
  lemma {:induction false} WrittenFolded(t: string)
    ensures NormalizeUnits(Folded(t)) == t
    decreases |t|
  {
    if t != "" {
      if StartsEscape(t) && !IsUnreserved(EscapedByte(t)) && !IsLowerHex(t[1]) && !IsLowerHex(t[2]) {
        WrittenFolded(t[3..]);
        EscapeUpper(t);
        assert t == t[..3] + t[3..];
      } else {
        WrittenFolded(t[1..]);
        assert t == [t[0]] + t[1..];
      }
    }
  }

  /** The key of any string, as folded units. */
  lemma KeyFolds(s: string)
    ensures Folded(Normalize(s)) == Fold(CanonicalUnits(Units(s)))
  {
    CanonicalIsCanonical(Units(s));
    CanonicalFixpoint(Units(s));
    FoldedWritten(CanonicalUnits(Units(s)));
  }

  /** Any two strings get the same key if and only if their canonical units agree once spelled-out
      escapes are folded: escaped unreserved bytes count as literals, the case of hex digits
      does not count, and a stray '%' before two upper-case digits of a reserved byte, escaped or
      not, counts as that byte's escape. */
  lemma SameKeyIff(s: string, t: string)
    ensures Normalize(s) == Normalize(t) <==> Fold(CanonicalUnits(Units(s))) == Fold(CanonicalUnits(Units(t)))
  {
    KeyFolds(s);
    KeyFolds(t);
    WrittenFolded(Normalize(s));
    WrittenFolded(Normalize(t));
  }

  /** Without stray percent signs nothing is folded. */
  lemma {:induction false} NothingFolded(us: seq<Unit>)
    requires NoStray(us)
    ensures Fold(us) == us
  {
    if us != [] {
      assert us[0] != Plain('%');
      NothingFolded(us[1..]);
    }
  }

  /** So well-formed strings share a key only when their canonical units are the same. */
  lemma WellFormedKeyIff(s: string, t: string)
    requires WellFormed(s) && WellFormed(t)
    ensures Normalize(s) == Normalize(t) <==> CanonicalUnits(Units(s)) == CanonicalUnits(Units(t))
  {
    SameKeyIff(s, t);
    CanonicalNoStray(Units(s));
    CanonicalNoStray(Units(t));
    NothingFolded(CanonicalUnits(Units(s)));
    NothingFolded(CanonicalUnits(Units(t)));
  }

  /** An input: one string spells the text %25, the other a percent sign; both have one key, which
      is stable. */
  lemma SharedKey()
    ensures Normalize("%%325") == Normalize("%25") == "%25"
    ensures Decode(Units("%%325")) == "%25" && Decode(Units("%25")) == "%"
    ensures NoClash(Units("%%325"))
  {
    SharedKeyUnits();
    var us, vs := [Plain('%'), Escape(0x32), Plain('5')], [Escape(0x25)];
    assert us[1..] == [us[1], us[2]] && us[1..][1..] == [us[2]] && us[1..][1..][1..] == [];
    assert [us[1], us[2]][1..] == [us[2]] && [us[2]][1..] == [];
    assert Normalized(us[1]) == "2" && Normalized(us[2]) == "5";
    assert NormalizeUnits([us[2]]) == "5";
    assert NormalizeUnits([us[1], us[2]]) == "2" + "5" == "25";
    assert vs[1..] == [];
    assert Decode([us[2]]) == "5" && Decode([us[1], us[2]]) == "25";
  }

  lemma SharedKeyUnits()
    ensures Units("%%325") == [Plain('%'), Escape(0x32), Plain('5')]
    ensures Units("%25") == [Escape(0x25)]
  {
    var s := "%%325";
    assert s[1..] == "%325" && "%325"[3..] == "5" && "5"[1..] == "";
    assert Units("5") == [Plain('5')];
    assert EscapedByte("%325") == 0x32;
    assert Units("%325") == [Escape(0x32)] + Units("5");
    assert "%25"[3..] == "" && EscapedByte("%25") == 0x25;
  }

  // ----- Meaning -----

  /** The bytes the string stands for. */
  function Decode(us: seq<Unit>): string {
    if us == [] then "" else [if us[0].Plain? then us[0].c else us[0].b as char] + Decode(us[1..])
  }

  predicate IsLatin1Escape(u: Unit) {
    u.Escape? && u.b >= 0x80 && IsUnreserved(u.b)
  }

  predicate NoLatin1Escape(us: seq<Unit>) {
    forall i :: 0 <= i < |us| ==> !IsLatin1Escape(us[i])
  }

  /** A stray '%' comes to stand before two hex digits. */
  predicate Forms(us: seq<Unit>, i: nat) {
    i + 2 < |us| && us[i] == Plain('%') && Glyph(us[i + 1]).Some? && Glyph(us[i + 2]).Some?
  }

  predicate NoneForms(us: seq<Unit>) {
    forall i: nat :: i < |us| ==> !Forms(us, i)
  }

  /** The bytes the written units stand for. */
  function Reread(us: seq<Unit>): string {
    Decode(Units(NormalizeUnits(us)))
  }

  lemma FormsTail(us: seq<Unit>)
    requires us != []
    ensures NoneForms(us) <==> !Forms(us, 0) && NoneForms(us[1..])
    ensures NoLatin1Escape(us) <==> !IsLatin1Escape(us[0]) && NoLatin1Escape(us[1..])
  {
    forall i: nat | i < |us| - 1 ensures Forms(us, i + 1) <==> Forms(us[1..], i) {
    }
    if NoneForms(us[1..]) && !Forms(us, 0) {
      forall i: nat | i < |us| ensures !Forms(us, i) {
        if i > 0 {
          assert Forms(us, i - 1 + 1) <==> Forms(us[1..], i - 1);
        }
      }
    }
    if NoneForms(us) {
      forall i: nat | i < |us| - 1 ensures !Forms(us[1..], i) {
        assert !Forms(us, i + 1);
      }
    }
  }

  function ByteOf(u: Unit): char {
    if u.Plain? then u.c else u.b as char
  }

  lemma RereadCons(u: Unit, rest: string)
    requires u != Plain('%') && (u.Escape? ==> !IsUnreserved(u.b))
    ensures Decode(Units(Normalized(u) + rest)) == [ByteOf(u)] + Decode(Units(rest))
  {
    UnitsCons(u, rest);
    assert ([u] + Units(rest))[1..] == Units(rest);
  }

  /** A unit that neither forms an escape nor is rewritten is read back as its byte. */
  lemma RereadSame(us: seq<Unit>)
    requires us != [] && !Forms(us, 0) && !IsLatin1Escape(us[0])
    ensures Reread(us) == [ByteOf(us[0])] + Reread(us[1..])
  {
    var u, rest := us[0], NormalizeUnits(us[1..]);
    if u == Plain('%') {
      StrayStarts(us);
      var t := NormalizeUnits(us);
      assert t == "%" + rest && t[1..] == rest;
      assert Units(t) == [Plain('%')] + Units(rest);
      assert ([Plain('%')] + Units(rest))[1..] == Units(rest);
    } else if u.Escape? && IsUnreserved(u.b) {
      RereadCons(Plain(u.b as char), rest);
    } else {
      RereadCons(u, rest);
    }
  }

  /** An escaped Latin-1 letter is read back as the two bytes of its rune. */
  lemma RereadLatin1(us: seq<Unit>)
    requires us != [] && IsLatin1Escape(us[0])
    ensures var w := WriteRune(us[0].b);
            Reread(us) == [w[0], w[1]] + Reread(us[1..])
  {
    var w, rest := WriteRune(us[0].b), NormalizeUnits(us[1..]);
    RereadTwo(w[0], w[1], rest);
    assert w == [w[0], w[1]];
  }

  lemma RereadTwo(c: char, d: char, rest: string)
    requires c != '%' && d != '%'
    ensures Decode(Units([c, d] + rest)) == [c, d] + Decode(Units(rest))
  {
    RereadCons(Plain(d), rest);
    RereadCons(Plain(c), [d] + rest);
    assert [c, d] + rest == [c] + ([d] + rest);
  }

  /** A '%' that forms an escape is read back, with its digits, as one byte. */
  lemma RereadFormed(us: seq<Unit>)
    requires us != [] && Forms(us, 0)
    ensures var f := FromHex(Glyph(us[1]).value) * 16 + FromHex(Glyph(us[2]).value);
            Reread(us) == [f as char] + Reread(us[3..])
  {
    StrayStarts(us);
    var t := NormalizeUnits(us);
    var e := Escape(EscapedByte(t));
    assert Units(t) == [e] + Units(t[3..]);
    assert ([e] + Units(t[3..]))[1..] == Units(t[3..]);
  }

  /** A byte of continuation in front can never be made up for. */
  lemma {:induction false} NotShifted(us: seq<Unit>)
    ensures ['\U{83}'] + Reread(us) != Decode(us)
  {
    if us != [] && Decode(us)[0] == '\U{83}' {
      assert ByteOf(us[0]) == '\U{83}';
      RereadSame(us);
      NotShifted(us[1..]);
      assert (['\U{83}'] + Reread(us))[1..] == Reread(us);
      assert Decode(us)[1..] == Decode(us[1..]);
    }
  }

  predicate IsAscii(p: string) {
    forall i :: 0 <= i < |p| ==> p[i] as int < 0x80
  }

  /** Nor can plain bytes that are missing in front. */
  lemma {:induction false} NotDelayed(us: seq<Unit>, p: string)
    requires p != "" && IsAscii(p)
    ensures Reread(us) != p + Decode(us)
    decreases |us|
  {
    if us != [] {
      if IsLatin1Escape(us[0]) {
        RereadLatin1(us);
        assert Reread(us)[0] as int >= 0x80 && (p + Decode(us))[0] == p[0];
      } else if Forms(us, 0) {
        RereadFormed(us);
        var g := [us[0].c, ByteOf(us[1]), ByteOf(us[2])];
        DecodeThree(us);
        NotDelayed(us[3..], p[1..] + g);
        Delay(p, g, Decode(us[3..]), Reread(us), Reread(us[3..]));
      } else {
        RereadSame(us);
        if Reread(us) == p + Decode(us) {
          assert ByteOf(us[0]) == p[0];
          NotDelayed(us[1..], p[1..] + [p[0]]);
          Delay(p, [p[0]], Decode(us[1..]), Reread(us), Reread(us[1..]));
        }
      }
    }
  }

  lemma DecodeThree(us: seq<Unit>)
    requires |us| > 2 && us[0].Plain? && Glyph(us[1]).Some? && Glyph(us[2]).Some?
    ensures Decode(us) == [us[0].c, ByteOf(us[1]), ByteOf(us[2])] + Decode(us[3..])
    ensures IsAscii([ByteOf(us[1]), ByteOf(us[2])])
  {
    assert us[1..][1..] == us[2..] && us[2..][1..] == us[3..];
    assert Decode(us[2..]) == [ByteOf(us[2])] + Decode(us[3..]);
    assert Decode(us[1..]) == [ByteOf(us[1])] + Decode(us[2..]);
  }

  /** When the first byte agrees the question moves on to the rest. */
  lemma Delay(p: string, g: string, d: string, r: string, r': string)
    requires p != "" && r != "" && r[1..] == r' && r' != (p[1..] + g) + d
    ensures r != p + (g + d)
  {
    assert (p + (g + d))[1..] == (p[1..] + g) + d;
  }

  lemma Latin1Differs(us: seq<Unit>)
    requires us != [] && IsLatin1Escape(us[0])
    ensures Reread(us) != Decode(us)
  {
    RereadLatin1(us);
    NotShifted(us[1..]);
    var w, r := WriteRune(us[0].b), Reread(us[1..]);
    assert ([w[0], w[1]] + r)[1..] == [w[1]] + r;
    assert Decode(us)[0] == us[0].b as char && Decode(us)[1..] == Decode(us[1..]);
    assert w[0] == us[0].b as char ==> us[0].b == 0xC3 && w[1] == '\U{83}';
  }

  lemma FormedDiffers(us: seq<Unit>)
    requires us != [] && Forms(us, 0)
    ensures Reread(us) != Decode(us)
  {
    RereadFormed(us);
    DecodeThree(us);
    var g := [ByteOf(us[1]), ByteOf(us[2])];
    NotDelayed(us[3..], g);
    assert Decode(us)[1..] == g + Decode(us[3..]) && Reread(us)[1..] == Reread(us[3..]);
  }

  lemma {:induction false} RereadIff(us: seq<Unit>)
    ensures Reread(us) == Decode(us) <==> NoLatin1Escape(us) && NoneForms(us)
  {
    if us != [] {
      FormsTail(us);
      if IsLatin1Escape(us[0]) {
        Latin1Differs(us);
      } else if Forms(us, 0) {
        FormedDiffers(us);
      } else {
        RereadSame(us);
        RereadIff(us[1..]);
        assert Reread(us)[1..] == Reread(us[1..]) && Decode(us)[1..] == Decode(us[1..]);
      }
    }
  }

  /** Any string keeps its decoded bytes if and only if it escapes no Latin-1 letter outside ASCII,
      which is written as the two bytes of its rune, and no stray '%' comes to stand before two
      hex digits, which makes an escape of them. */
  lemma DecodedPreservedIff(s: string)
    ensures Decode(Units(Normalize(s))) == Decode(Units(s)) <==> NoLatin1Escape(Units(s)) && NoneForms(Units(s))
  {
    RereadIff(Units(s));
  }

  /** The unreserved characters of section 2.3 of RFC 3986. */
  predicate Rfc3986Unreserved(b: Byte) {
    'A' as int <= b <= 'Z' as int || 'a' as int <= b <= 'z' as int || '0' as int <= b <= '9' as int ||
    b == 0x2D || b == 0x2E || b == 0x5F || b == 0x7E
  }

  /** The letters of Latin-1 outside ASCII, by their numbers. */
  predicate Latin1Letter(b: Byte) {
    b in {0xAA, 0xB5, 0xBA} || 0xC0 <= b <= 0xD6 || 0xD8 <= b <= 0xF6 || 0xF8 <= b
  }

  /** What becomes of one escape: an unreserved character stands for itself, a Latin-1 letter becomes
      the two bytes of its UTF-8 form, and every other byte stays escaped. */
  lemma EscapeBecomes(b: Byte)
    ensures var t := Normalize(PercentEncodeUpper(b));
            if Rfc3986Unreserved(b) then t == [b as char]
            else if Latin1Letter(b) then
              |t| == 2 && 0xC2 <= t[0] as int <= 0xC3 && 0x80 <= t[1] as int < 0xC0 &&
              (t[0] as int - 0xC0) * 64 + (t[1] as int - 0x80) == b
            else t == PercentEncodeUpper(b)
  {
    var s := PercentEncodeUpper(b);
    assert s[1] == Hex(b / 16) && s[2] == Hex(b % 16) && s[3..] == "";
    assert StartsEscape(s) && EscapedByte(s) == b && Units(s[3..]) == [];
    var us := Units(s);
    assert us == [Escape(b)] && us[1..] == [];
    assert NormalizeUnits(us[1..]) == "";
    assert NormalizeUnits(us) == Normalized(us[0]) + "" == Normalized(us[0]);
  }

  /** The digits of an escape, and that their case does not count. */
  lemma DigitsOfEscape(x: char, y: char)
    requires IsHexDigit(x) && IsHexDigit(y)
    ensures EscapedByte(['%', x, y]) == EscapedByte(['%', ToUpper(x), ToUpper(y)])
    ensures !IsLowerHex(x) && !IsLowerHex(y) ==> PercentEncodeUpper(EscapedByte(['%', x, y])) == ['%', x, y]
  {
  }

  /** An input: an escaped e with acute accent becomes the two bytes of its UTF-8 form. */
  lemma Latin1Rewritten()
    ensures WellFormed("%E9") && Decode(Units("%E9")) == ['\U{E9}']
    ensures Normalize("%E9") == ['\U{C3}', '\U{A9}'] == Decode(Units(Normalize("%E9")))
  {
    var s := "%E9";
    assert s[3..] == "" && EscapedByte(s) == 0xE9;
    var us := Units(s);
    assert us == [Escape(0xE9)] && us[1..] == [];
    var t := ['\U{C3}', '\U{A9}'];
    assert Normalize(s) == t;
    assert t[1..] == ['\U{A9}'] && t[1..][1..] == [];
    assert Units(t[1..]) == [Plain('\U{A9}')];
    var vs := Units(t);
    assert vs == [Plain('\U{C3}'), Plain('\U{A9}')] && vs[1..] == [Plain('\U{A9}')] && vs[1..][1..] == [];
  }

  /** No '#' appears in a key that had none, whatever the string. */
  lemma KeepsHashFree(s: string)
    requires '#' !in s
    ensures '#' !in Normalize(s)
  {
    UnitsHashFree(s);
    NormalHashFree(Units(s));
  }

  lemma {:induction false} UnitsHashFree(s: string)
    requires '#' !in s
    ensures forall i :: 0 <= i < |Units(s)| ==> Units(s)[i] != Plain('#')
  {
    if s != "" {
      if StartsEscape(s) {
        UnitsHashFree(s[3..]);
      } else {
        assert s[0] in s;
        UnitsHashFree(s[1..]);
      }
    }
  }

  lemma {:induction false} NormalHashFree(us: seq<Unit>)
    requires forall i :: 0 <= i < |us| ==> us[i] != Plain('#')
    ensures '#' !in NormalizeUnits(us)
  {
    if us != [] {
      assert us[0] != Plain('#');
      assert '#' !in Normalized(us[0]);
      NormalHashFree(us[1..]);
    }
  }
}
