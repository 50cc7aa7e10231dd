/**
  File names of the file system backend: `store/fscache/filenamer.go`. A key is encoded as
  unpadded base64url (section 5 of RFC 4648) and split into directories when it is long.
 */
module FileNames {
  import opened Base
  import Csv

  // ----- base64url without padding -----

  type Sextet = x: int | 0 <= x < 64

  function Digit(x: Sextet): (c: char)
    ensures c != '/' && c != '\n' && c != '\r'
  {
    if x < 26 then ('A' as int + x) as char
    else if x < 52 then ('a' as int + (x - 26)) as char
    else if x < 62 then ('0' as int + (x - 52)) as char
    else if x == 62 then '-'
    else '_'
  }

  function Value(c: char): Option<Sextet> {
    if IsUpper(c) then Some(c as int - 'A' as int)
    else if IsLower(c) then Some(c as int - 'a' as int + 26)
    else if IsDigit(c) then Some(c as int - '0' as int + 52)
    else if c == '-' then Some(62)
    else if c == '_' then Some(63)
    else None
  }

  lemma ValueDigit(x: Sextet)
    ensures Value(Digit(x)) == Some(x)
  {
  }

  function EncodedLength(n: nat): nat { (4 * n + 2) / 3 }

  /** `base64.RawURLEncoding.EncodeToString` */
  function Encode(key: seq<Byte>): (s: string)
    ensures |s| == EncodedLength(|key|)
  {
    if |key| == 0 then ""
    else if |key| == 1 then [Digit(key[0] / 4), Digit(key[0] % 4 * 16)]
    else if |key| == 2 then [Digit(key[0] / 4), Digit(key[0] % 4 * 16 + key[1] / 16), Digit(key[1] % 16 * 4)]
    else Quantum(key[0], key[1], key[2]) + Encode(key[3..])
  }

  function Quantum(a: Byte, b: Byte, c: Byte): (s: string)
    ensures |s| == 4
  {
    [Digit(a / 4), Digit(a % 4 * 16 + b / 16), Digit(b % 16 * 4 + c / 64), Digit(c % 64)]
  }

  function Values(s: string): Option<seq<Sextet>> {
    if s == "" then Some([])
    else
      match (Value(s[0]), Values(s[1..]))
      case (Some(x), Some(xs)) => Some([x] + xs)
      case _ => None
  }

  /** The bytes of up to four sextets; two are the least, and left-over bits are ignored. */
  function Assemble(x: seq<Sextet>): Option<seq<Byte>> {
    if |x| < 2 || |x| > 4 then None
    else
      var p: int, q: int := x[0], x[1];
      var first: Byte := p * 4 + q / 16;
      if |x| == 2 then Some([first])
      else
        var r: int := x[2];
        var second: Byte := q % 16 * 16 + r / 4;
        if |x| == 3 then Some([first, second])
        else
          var t: int := x[3];
          var third: Byte := r % 4 * 64 + t;
          Some([first, second, third])
  }

  function DecodeQuantum(s: string): Option<seq<Byte>> {
    match Values(s)
    case Some(x) => Assemble(x)
    case None => None
  }

  function DecodeDigits(s: string): Option<seq<Byte>> {
    if s == "" then Some([])
    else if |s| <= 4 then DecodeQuantum(s)
    else
      match (DecodeQuantum(s[..4]), DecodeDigits(s[4..]))
      case (Some(first), Some(rest)) => Some(first + rest)
      case _ => None
  }

  function Remove(s: string, unwanted: set<char>): string {
    if s == "" then ""
    else if s[0] in unwanted then Remove(s[1..], unwanted)
    else [s[0]] + Remove(s[1..], unwanted)
  }

  /** `base64.RawURLEncoding.DecodeString`, which skips line breaks. */
  function Decode(s: string): Option<seq<Byte>> {
    DecodeDigits(Remove(s, {'\n', '\r'}))
  }

  lemma {:induction false} ValuesDigits(x: seq<Sextet>)
    ensures Values(seq(|x|, i requires 0 <= i < |x| => Digit(x[i]))) == Some(x)
  {
    if x != [] {
      var s := seq(|x|, i requires 0 <= i < |x| => Digit(x[i]));
      var t := seq(|x[1..]|, i requires 0 <= i < |x[1..]| => Digit(x[1..][i]));
      assert s[1..] == t;
      ValueDigit(x[0]);
      ValuesDigits(x[1..]);
      assert [x[0]] + x[1..] == x;
    }
  }

  lemma DecodeDigitsOf(s: string, x: seq<Sextet>)
    requires |s| == |x| && forall i :: 0 <= i < |x| ==> s[i] == Digit(x[i])
    ensures DecodeQuantum(s) == Assemble(x)
  {
    assert s == seq(|x|, i requires 0 <= i < |x| => Digit(x[i]));
    ValuesDigits(x);
  }

  lemma FirstByte(a: Byte, b: Byte)
    ensures a / 4 * 4 + (a % 4 * 16 + b / 16) / 16 == a
  {
  }

  lemma SecondByte(a: Byte, b: Byte, c: Byte)
    ensures (a % 4 * 16 + b / 16) % 16 * 16 + (b % 16 * 4 + c / 64) / 4 == b
  {
  }

  lemma ThirdByte(b: Byte, c: Byte)
    ensures (b % 16 * 4 + c / 64) % 4 * 64 + c % 64 == c
  {
  }

  lemma DecodeEncodeThree(a: Byte, b: Byte, c: Byte)
    ensures DecodeQuantum(Quantum(a, b, c)) == Some([a, b, c])
  {
    var x: seq<Sextet> := [a / 4, a % 4 * 16 + b / 16, b % 16 * 4 + c / 64, c % 64];
    DecodeDigitsOf(Quantum(a, b, c), x);
    FirstByte(a, b);
    SecondByte(a, b, c);
    ThirdByte(b, c);
  }

  lemma DecodeEncodeOne(a: Byte)
    ensures DecodeQuantum(Encode([a])) == Some([a])
  {
    var x: seq<Sextet> := [a / 4, a % 4 * 16];
    DecodeDigitsOf(Encode([a]), x);
    assert Assemble(x) == Some([a]);
  }

  lemma DecodeEncodeTwo(a: Byte, b: Byte)
    ensures DecodeQuantum(Encode([a, b])) == Some([a, b])
  {
    var x: seq<Sextet> := [a / 4, a % 4 * 16 + b / 16, b % 16 * 4];
    DecodeDigitsOf(Encode([a, b]), x);
    assert Assemble(x) == Some([a, b]);
  }

  lemma {:induction false} DecodeEncodeDigits(key: seq<Byte>)
    ensures DecodeDigits(Encode(key)) == Some(key)
  {
    if |key| == 0 {
    } else if |key| == 1 {
      DecodeEncodeOne(key[0]);
      assert key == [key[0]];
    } else if |key| == 2 {
      DecodeEncodeTwo(key[0], key[1]);
      assert key == [key[0], key[1]];
    } else {
      DecodeEncodeDigits(key[3..]);
      DecodeEncodeThree(key[0], key[1], key[2]);
      DecodeJoin(Quantum(key[0], key[1], key[2]), Encode(key[3..]), [key[0], key[1], key[2]], key[3..]);
      assert key == [key[0], key[1], key[2]] + key[3..];
    }
  }

  lemma DecodeJoin(q: string, rest: string, first: seq<Byte>, more: seq<Byte>)
    requires |q| == 4 && DecodeQuantum(q) == Some(first) && DecodeDigits(rest) == Some(more)
    ensures DecodeDigits(q + rest) == Some(first + more)
  {
    if rest == "" {
      assert q + rest == q && first + more == first;
    } else {
      assert (q + rest)[..4] == q && (q + rest)[4..] == rest;
    }
  }

  /** The encoding uses no separator and no line break. */
  lemma {:induction false} EncodeClean(key: seq<Byte>)
    ensures forall i :: 0 <= i < |Encode(key)| ==>
            Encode(key)[i] != '/' && Encode(key)[i] != '\n' && Encode(key)[i] != '\r'
  {
    if |key| >= 3 {
      EncodeClean(key[3..]);
    }
  }

  // ----- Fragments -----

  const FRAGMENT: nat := 48
  const NAME_LIMIT: nat := 255

  function Fragments(s: string): (parts: seq<string>)
    ensures s != "" ==> |parts| == (|s| + FRAGMENT - 1) / FRAGMENT
    ensures forall i :: 0 <= i < |parts| ==> 0 < |parts[i]| <= FRAGMENT
    ensures forall i :: 0 <= i < |parts| - 1 ==> |parts[i]| == FRAGMENT
  {
    if s == "" then []
    else if |s| <= FRAGMENT then [s]
    else [s[..FRAGMENT]] + Fragments(s[FRAGMENT..])
  }

  /** The path components of a key's file. */
  function Components(key: seq<Byte>): seq<string> {
    if |Encode(key)| <= NAME_LIMIT then [Encode(key)] else Fragments(Encode(key))
  }

  function FileName(key: seq<Byte>): string {
    Csv.Join(Components(key), "/")
  }

  /** The fragments from an offset on, none past the end. */
  function FragmentsAt(s: string, i: nat): seq<string> {
    if i < |s| then Fragments(s[i..]) else []
  }

  lemma FragmentsFrom(s: string, i: nat)
    requires i < |s|
    ensures FragmentsAt(s, i) == [s[i..Min(i + FRAGMENT, |s|)]] + FragmentsAt(s, i + FRAGMENT)
  {
    if i + FRAGMENT < |s| {
      assert s[i..][FRAGMENT..] == s[i + FRAGMENT..];
      assert s[i..][..FRAGMENT] == s[i..i + FRAGMENT];
    } else {
      assert s[i..] == s[i..|s|];
    }
  }

  lemma NextPart(parts: seq<string>, part: string, rest: seq<string>)
    ensures parts + ([part] + rest) == parts + [part] + rest
  {
  }

  /** `fragmentFileName`: a loop that cuts the encoded key into parts. */
  method FragmentFileName(key: seq<Byte>) returns (name: string)
    ensures name == FileName(key)
  {
    var encoded := Encode(key);
    if |encoded| <= NAME_LIMIT {
      return encoded;
    }
    var parts, i := [], 0;
    assert encoded[0..] == encoded;
    while i < |encoded|
      invariant parts + FragmentsAt(encoded, i) == Fragments(encoded)
    {
      var end := Min(i + FRAGMENT, |encoded|);
      FragmentsFrom(encoded, i);
      NextPart(parts, encoded[i..end], FragmentsAt(encoded, i + FRAGMENT));
      parts := parts + [encoded[i..end]];
      i := i + FRAGMENT;
    }
    assert parts == Fragments(encoded);
    name := Csv.Join(parts, "/");
  }

  /** `fragmentedFileNameToKey` */
  function KeyOf(name: string): Option<seq<Byte>> {
    if '/' in name then Decode(Remove(name, {'/'})) else Decode(name)
  }

  // ----- Round trip -----

  lemma {:induction false} RemoveNothing(s: string, unwanted: set<char>)
    requires forall i :: 0 <= i < |s| ==> s[i] !in unwanted
    ensures Remove(s, unwanted) == s
  {
    if s != "" {
      assert s[0] !in unwanted;
      RemoveNothing(s[1..], unwanted);
    }
  }

  lemma {:induction false} RemoveAppend(s: string, t: string, unwanted: set<char>)
    ensures Remove(s + t, unwanted) == Remove(s, unwanted) + Remove(t, unwanted)
  {
    if s == "" {
      assert s + t == t;
    } else {
      assert (s + t)[1..] == s[1..] + t;
      RemoveAppend(s[1..], t, unwanted);
    }
  }

  /** Joining the fragments with separators and removing the separators gives the text back. */
  lemma {:induction false} RemoveSeparators(s: string)
    requires forall i :: 0 <= i < |s| ==> s[i] != '/'
    ensures Remove(Csv.Join(Fragments(s), "/"), {'/'}) == s
    decreases |s|
  {
    if s != "" && |s| <= FRAGMENT {
      RemoveNothing(s, {'/'});
    } else if s != "" {
      var head, tail := s[..FRAGMENT], s[FRAGMENT..];
      var rest := Csv.Join(Fragments(tail), "/");
      assert Fragments(s)[1..] == Fragments(tail);
      assert Csv.Join(Fragments(s), "/") == head + "/" + rest;
      RemoveNothing(head, {'/'});
      RemoveSeparators(tail);
      RemoveAppend(head + "/", rest, {'/'});
      RemoveAppend(head, "/", {'/'});
      assert "/"[1..] == "";
      assert head + tail == s;
    }
  }

  /** For every byte string the key can be read back from its file name. */
  lemma RoundTrip(key: seq<Byte>)
    ensures KeyOf(FileName(key)) == Some(key)
  {
    var encoded := Encode(key);
    EncodeClean(key);
    RemoveNothing(encoded, {'\n', '\r'});
    DecodeEncodeDigits(key);
    RemoveSeparators(encoded);
    if |encoded| > NAME_LIMIT {
      SeveralHaveSeparator(Fragments(encoded));
    }
  }

  lemma SeveralHaveSeparator(parts: seq<string>)
    requires |parts| >= 2
    ensures '/' in Csv.Join(parts, "/")
  {
    assert Csv.Join(parts, "/")[|parts[0]|] == '/';
  }

  /** Names are injective, and no component is too long for a file system. */
  lemma NamesDistinct(key: seq<Byte>, other: seq<Byte>)
    ensures FileName(key) == FileName(other) ==> key == other
    ensures forall i :: 0 <= i < |Components(key)| ==>
              |Components(key)[i]| <= if |Components(key)| == 1 then NAME_LIMIT else FRAGMENT
  {
    RoundTrip(key);
    RoundTrip(other);
  }

  // ----- One key's file where another's directory would be -----

  /** The file of `a` would have to be a directory on the way to the file of `b`. */
  predicate Obstructs(a: seq<Byte>, b: seq<Byte>) {
    Components(a) < Components(b)
  }

  function Concat(parts: seq<string>): string {
    if parts == [] then "" else parts[0] + Concat(parts[1..])
  }

  lemma {:induction false} ConcatFragments(s: string)
    ensures Concat(Fragments(s)) == s
    decreases |s|
  {
    if |s| > FRAGMENT {
      assert Fragments(s)[1..] == Fragments(s[FRAGMENT..]);
      ConcatFragments(s[FRAGMENT..]);
    } else if s != "" {
      assert [s][1..] == [];
      assert s + "" == s;
    }
  }

  lemma ConcatComponents(key: seq<Byte>)
    ensures Concat(Components(key)) == Encode(key)
  {
    ConcatFragments(Encode(key));
    assert [Encode(key)][1..] == [];
    assert Encode(key) + "" == Encode(key);
  }

  /** A list of full fragments, when it starts another list, is where the text starts. */
  lemma {:induction false} ConcatPrefix(parts: seq<string>, more: seq<string>)
    requires parts <= more && forall i :: 0 <= i < |parts| ==> |parts[i]| == FRAGMENT
    ensures |Concat(parts)| == FRAGMENT * |parts| && Concat(parts) <= Concat(more)
  {
    if parts != [] {
      assert more[0] == parts[0] && parts[1..] <= more[1..];
      ConcatPrefix(parts[1..], more[1..]);
    }
  }

  /** Whole groups of three bytes encode independently of what follows. */
  lemma {:induction false} EncodeAppend(a: seq<Byte>, b: seq<Byte>)
    requires |a| % 3 == 0
    ensures Encode(a + b) == Encode(a) + Encode(b)
    decreases |a|
  {
    if a == [] {
      assert a + b == b;
    } else {
      assert (a + b)[3..] == a[3..] + b;
      EncodeAppend(a[3..], b);
      assert Encode(a + b) == Quantum(a[0], a[1], a[2]) + (Encode(a[3..]) + Encode(b));
      assert Encode(a + b) == Quantum(a[0], a[1], a[2]) + Encode(a[3..]) + Encode(b);
    }
  }

  /** Full fragments split off whatever follows. */
  lemma {:induction false} FragmentsAppend(s: string, t: string)
    requires |s| % FRAGMENT == 0 && t != ""
    ensures Fragments(s + t) == Fragments(s) + Fragments(t)
    decreases |s|
  {
    if s == "" {
      assert s + t == t;
    } else {
      assert |s| >= FRAGMENT;
      assert (s + t)[..FRAGMENT] == s[..FRAGMENT];
      assert (s + t)[FRAGMENT..] == s[FRAGMENT..] + t;
      FragmentsAppend(s[FRAGMENT..], t);
      if |s| == FRAGMENT {
        assert s[..FRAGMENT] == s && s[FRAGMENT..] == "";
      } else {
        assert Fragments(s) == [s[..FRAGMENT]] + Fragments(s[FRAGMENT..]);
      }
    }
  }

  /** The lengths at which a key fills its components. */
  predicate Fills(n: nat) {
    n == 36 || (n % 36 == 0 && n >= 216)
  }

  /** Components in the way of others are full, so the encoding is a prefix of the other. */
  lemma ObstructingEncoding(a: seq<Byte>, b: seq<Byte>)
    requires Obstructs(a, b)
    ensures |Encode(a)| == FRAGMENT * |Components(a)| && Encode(a) <= Encode(b)
    ensures |Encode(b)| > NAME_LIMIT
  {
    var ca, cb := Components(a), Components(b);
    assert ca != [] by {
      if Encode(a) != "" {
        ConcatComponents(a);
      }
    }
    assert |cb| >= 2;
    forall i | 0 <= i < |ca| ensures |ca[i]| == FRAGMENT {
      assert ca[i] == cb[i];
    }
    ConcatPrefix(ca, cb);
    ConcatComponents(a);
    ConcatComponents(b);
  }

  /** Encodings that fill their fragments come from keys of that many times 36 bytes. */
  lemma FullLength(n: nat, m: nat)
    requires EncodedLength(n) == FRAGMENT * m
    ensures n == 36 * m
  {
  }

  lemma EncodedLengthMonotone(m: nat, n: nat)
    requires EncodedLength(m) <= EncodedLength(n)
    ensures m <= n
  {
  }

  /** A whole number of groups is a prefix when its encoding is. */
  lemma EncodePrefix(a: seq<Byte>, b: seq<Byte>)
    requires |a| % 3 == 0 && Encode(a) <= Encode(b)
    ensures a <= b
  {
    EncodedLengthMonotone(|a|, |b|);
    var head := b[..|a|];
    assert head + b[|a|..] == b;
    EncodeAppend(head, b[|a|..]);
    assert |Encode(head)| == |Encode(a)|;
    assert Encode(a) == Encode(b)[..|Encode(a)|] == Encode(head);
    DecodeEncodeDigits(a);
    DecodeEncodeDigits(head);
  }

  lemma LongEncoding(n: nat)
    ensures EncodedLength(n) > NAME_LIMIT <==> n >= 192
  {
  }

  lemma ObstructsOnlyIf(a: seq<Byte>, b: seq<Byte>)
    requires a != [] && Obstructs(a, b)
    ensures a < b && |b| >= 192 && Fills(|a|)
  {
    ObstructingEncoding(a, b);
    LongEncoding(|b|);
    ObstructingLength(a);
    EncodePrefix(a, b);
    Irreflexive(a, b);
  }

  lemma Irreflexive(a: seq<Byte>, b: seq<Byte>)
    requires Obstructs(a, b)
    ensures a != b
  {
    assert |Components(a)| < |Components(b)|;
  }

  lemma ObstructingLength(a: seq<Byte>)
    requires a != [] && |Encode(a)| == FRAGMENT * |Components(a)|
    ensures Fills(|a|) && |a| % 3 == 0
  {
    var m := |Components(a)|;
    FullLength(|a|, m);
    assert |Encode(a)| <= NAME_LIMIT ==> m == 1;
    FillsAtMultiple(m);
  }

  lemma FillsAtMultiple(m: nat)
    requires FRAGMENT * m > NAME_LIMIT || m == 1
    ensures Fills(36 * m) && 36 * m % 3 == 0
  {
    assert 36 * m == 3 * (12 * m);
  }

  lemma LongComponents(a: seq<Byte>, rest: seq<Byte>)
    requires Fills(|a|) && rest != [] && |a + rest| >= 192
    ensures Components(a + rest) == Fragments(Encode(a)) + Fragments(Encode(rest))
  {
    LongEncoding(|a + rest|);
    FillsFragments(|a|);
    EncodeAppend(a, rest);
    FragmentsAppend(Encode(a), Encode(rest));
  }

  lemma ObstructsIf(a: seq<Byte>, b: seq<Byte>)
    requires a < b && |b| >= 192 && Fills(|a|)
    ensures Obstructs(a, b)
  {
    var rest := b[|a|..];
    assert a + rest == b;
    LongComponents(a, rest);
    FilledComponents(a);
    assert |Fragments(Encode(rest))| > 0;
  }

  lemma FillsFragments(n: nat)
    requires Fills(n)
    ensures EncodedLength(n) % FRAGMENT == 0 && n % 3 == 0
  {
    var m := n / 36;
    assert n == 36 * m && n == 3 * (12 * m) && EncodedLength(n) == FRAGMENT * m;
  }

  /** A key that fills its components is split like its encoding. */
  lemma FilledComponents(a: seq<Byte>)
    requires Fills(|a|)
    ensures Components(a) == Fragments(Encode(a))
  {
    if |a| == 36 {
      assert |Encode(a)| == FRAGMENT;
    } else {
      assert |Encode(a)| > NAME_LIMIT;
    }
  }

  /** For non-empty keys: the file of one is in the way of the other exactly when the first is
      a proper prefix of the second, the second is long enough to be fragmented, and the
      first fills its last component. */
  lemma ObstructsIff(a: seq<Byte>, b: seq<Byte>)
    requires a != [] && b != []
    ensures Obstructs(a, b) <==> a < b && |b| >= 192 && Fills(|a|)
  {
    if Obstructs(a, b) {
      ObstructsOnlyIf(a, b);
    } else if a < b && |b| >= 192 && Fills(|a|) {
      ObstructsIf(a, b);
    }
  }

  /** An input: a key of 36 bytes and one of 192 that starts with it. */
  lemma FileInTheWay()
    ensures Obstructs(seq(36, _ => 0), seq(192, _ => 0))
  {
    var a: seq<Byte>, b: seq<Byte> := seq(36, _ => 0), seq(192, _ => 0);
    assert a == b[..36];
    ObstructsIff(a, b);
  }
}
