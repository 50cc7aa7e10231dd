/**
  Decimal numbers as text: what a string of digits stands for, that the parser of
  `strconv.ParseInt` reads it so, and that the printer of `strconv.FormatUint` writes it.
 */
module Digits {
  import opened Base

  predicate AllDigits(s: string) {
    forall i :: 0 <= i < |s| ==> '0' <= s[i] <= '9'
  }

  /** The value of a string of digits in base 10, by place. */
  function Positional(s: string): (v: int)
    requires AllDigits(s)
    ensures v >= 0
  {
    if s == "" then 0 else 10 * Positional(s[..|s| - 1]) + (s[|s| - 1] as int - '0' as int)
  }

  lemma PositionalNext(s: string, c: char)
    requires AllDigits(s) && '0' <= c <= '9'
    ensures AllDigits(s + [c]) && Positional(s + [c]) == 10 * Positional(s) + (c as int - '0' as int)
  {
    assert (s + [c])[..|s|] == s;
  }

  /** More digits never make less. */
  lemma {:induction false} PositionalGrows(s: string, t: string)
    requires AllDigits(s) && AllDigits(t)
    ensures AllDigits(s + t) && Positional(s + t) >= Positional(s)
    decreases |t|
  {
    if t == "" {
      assert s + t == s;
    } else {
      var n := |t| - 1;
      PositionalGrows(s, t[..n]);
      assert s + t == (s + t[..n]) + [t[n]];
      PositionalNext(s + t[..n], t[n]);
    }
  }

  /** The scan of further digits, with those before it accumulated. */
  lemma {:induction false} ScanReads(done: string, rest: string)
    requires AllDigits(done) && AllDigits(rest) && Positional(done) <= MAX_UINT64
    ensures AllDigits(done + rest)
    ensures ScanDigits(rest, Positional(done)) ==
            if Positional(done + rest) <= MAX_UINT64 then Number(Positional(done + rest)) else OutOfRange(MAX_UINT64)
    decreases |rest|
  {
    if rest == "" {
      assert done + rest == done;
    } else {
      PositionalNext(done, rest[0]);
      assert done + rest == (done + [rest[0]]) + rest[1..];
      PositionalGrows(done + [rest[0]], rest[1..]);
      if Positional(done + [rest[0]]) <= MAX_UINT64 {
        ScanReads(done + [rest[0]], rest[1..]);
      }
    }
  }

  /** A byte that is no digit makes a number malformed, unless the digits before it are already
      out of range. */
  lemma {:induction false} ScanStops(done: string, rest: string, tail: string)
    requires AllDigits(done) && AllDigits(rest) && Positional(done) <= MAX_UINT64
    requires tail != "" && !('0' <= tail[0] <= '9')
    ensures AllDigits(done + rest)
    ensures ScanDigits(rest + tail, Positional(done)) ==
            if Positional(done + rest) <= MAX_UINT64 then Malformed else OutOfRange(MAX_UINT64)
    decreases |rest|
  {
    if rest == "" {
      assert done + rest == done && rest + tail == tail;
    } else {
      PositionalNext(done, rest[0]);
      ScanStep(rest, tail, Positional(done));
      assert done + rest == (done + [rest[0]]) + rest[1..];
      if Positional(done + [rest[0]]) <= MAX_UINT64 {
        ScanStops(done + [rest[0]], rest[1..], tail);
      } else {
        PositionalGrows(done + [rest[0]], rest[1..]);
      }
    }
  }

  lemma ScanStep(rest: string, tail: string, n: nat)
    requires rest != "" && '0' <= rest[0] <= '9'
    ensures var next := 10 * n + (rest[0] as int - '0' as int);
            ScanDigits(rest + tail, n) ==
            if next > MAX_UINT64 then OutOfRange(MAX_UINT64) else ScanDigits(rest[1..] + tail, next)
  {
    assert (rest + tail)[1..] == rest[1..] + tail;
  }

  lemma ParseUnsigned(s: string)
    requires s != "" && AllDigits(s)
    ensures ParseInt(s) == if Positional(s) <= MAX_DURATION then Number(Positional(s)) else OutOfRange(MAX_DURATION)
  {
    ScanReads("", s);
    assert "" + s == s && '0' <= s[0] <= '9';
  }

  lemma ParseSigned(sign: char, s: string)
    requires s != "" && AllDigits(s) && sign in {'+', '-'}
    ensures ParseInt([sign] + s) ==
            if sign == '+' then
              if Positional(s) <= MAX_DURATION then Number(Positional(s)) else OutOfRange(MAX_DURATION)
            else if -Positional(s) >= MIN_DURATION then Number(-Positional(s))
            else OutOfRange(MIN_DURATION)
  {
    ScanReads("", s);
    assert "" + s == s;
    SignFirst(sign, s, Positional(s));
  }

  lemma SignFirst(sign: char, s: string, n: int)
    requires n >= 0 && s != "" && sign in {'+', '-'}
    requires ScanDigits(s, 0) == if n <= MAX_UINT64 then Number(n) else OutOfRange(MAX_UINT64)
    ensures ParseInt([sign] + s) ==
            if sign == '+' then if n <= MAX_DURATION then Number(n) else OutOfRange(MAX_DURATION)
            else if -n >= MIN_DURATION then Number(-n)
            else OutOfRange(MIN_DURATION)
  {
    assert ([sign] + s)[1..] == s;
  }

  /** Digits are read by place; beyond 64 bits they are out of range. A sign in front is read
      as such. */
  lemma ParseIntReads(s: string)
    requires s != "" && AllDigits(s)
    ensures ParseInt(s) == if Positional(s) <= MAX_DURATION then Number(Positional(s)) else OutOfRange(MAX_DURATION)
    ensures ParseInt("+" + s) == ParseInt(s)
    ensures ParseInt("-" + s) == if -Positional(s) >= MIN_DURATION then Number(-Positional(s))
                                 else OutOfRange(MIN_DURATION)
  {
    ParseUnsigned(s);
    ParseSigned('+', s);
    ParseSigned('-', s);
    assert "+" + s == ['+'] + s && "-" + s == ['-'] + s;
  }

  lemma NotSigned(t: string)
    requires t != "" && t[0] !in {'-', '+'} && ScanDigits(t, 0).Malformed?
    ensures ParseInt(t) == Malformed
  {
  }

  /** Anything else is malformed: no digits, or another byte after digits that are in range. */
  lemma ParseIntRejects(s: string, c: char, more: string)
    requires AllDigits(s) && Positional(s) <= MAX_UINT64 && !('0' <= c <= '9') && (s == "" ==> c != '-' && c != '+')
    ensures ParseInt("") == Malformed && ParseInt("-") == Malformed && ParseInt("+") == Malformed
    ensures ParseInt(s + [c] + more) == Malformed
  {
    ScanStops("", s, [c] + more);
    assert "" + s == s && s + [c] + more == s + ([c] + more);
    NotSigned(s + [c] + more);
  }

  /** The number a text gives where its errors are dropped: 0 for a malformed one, the nearest
      64-bit number for one out of range. */
  lemma AtoiReads(s: string)
    requires s != "" && AllDigits(s)
    ensures Atoi(s) == Min(Positional(s), MAX_DURATION)
    ensures Atoi("-" + s) == Max(-Positional(s), MIN_DURATION)
  {
    ParseIntReads(s);
  }

  lemma AtoiRejects(s: string, c: char, more: string)
    requires AllDigits(s) && Positional(s) <= MAX_UINT64 && !('0' <= c <= '9') && (s == "" ==> c != '-' && c != '+')
    ensures Atoi(s + [c] + more) == 0
  {
    ParseIntRejects(s, c, more);
  }

  /** A printed number has its digits by place, none of them a leading zero. */
  lemma {:induction false} DecimalReads(n: nat)
    ensures AllDigits(Decimal(n)) && Positional(Decimal(n)) == n
    ensures if n == 0 then Decimal(n) == "0" else Decimal(n)[0] != '0'
    decreases n
  {
    var last := ('0' as int + n % 10) as char;
    if n < 10 {
      assert Decimal(n) == [last] && [last][..0] == "";
    } else {
      DecimalReads(n / 10);
      PositionalNext(Decimal(n / 10), last);
    }
  }

  /** Printing and reading back. */
  lemma DecimalRoundTrip(n: nat)
    requires n <= MAX_DURATION
    ensures ParseInt(Decimal(n)) == Number(n)
  {
    DecimalReads(n);
    ParseIntReads(Decimal(n));
  }
}
