/**
  Values shared by the whole model: optional results, 64-bit durations, points in
  time, and the byte-level string helpers of the Go standard library that the cache
  relies on.

  A Go string is a sequence of bytes; here it is a `string` with one `char` per byte.
  A `Duration` is a 64-bit count of nanoseconds and wraps; a `Time` is an unbounded
  count of nanoseconds whose zero is Go's zero time.
 */
module Base {

  datatype Option<+T> = None | Some(value: T)

  // ----- Durations and times -----

  const TWO_64: int := 0x1_0000_0000_0000_0000
  const MAX_DURATION: int := 0x7FFF_FFFF_FFFF_FFFF
  const MIN_DURATION: int := -0x8000_0000_0000_0000
  const SECOND: int := 1_000_000_000

  type Duration = d: int | MIN_DURATION <= d <= MAX_DURATION

  type Time = int
  const ZERO_TIME: Time := 0

  predicate InRange(x: int) {
    MIN_DURATION <= x <= MAX_DURATION
  }

  /** Two's complement truncation: the value an int64 operation leaves behind. */
  function Wrap64(x: int): (r: Duration)
    ensures InRange(x) ==> r == x
    ensures exists k: int :: r == x + k * TWO_64
    ensures MAX_DURATION < x <= 2 * MAX_DURATION ==> r < 0
  {
    var r := (x - MIN_DURATION) % TWO_64 + MIN_DURATION;
    assert r == x + (-((x - MIN_DURATION) / TWO_64)) * TWO_64;
    r
  }

  /** `time.Time.Sub` saturates instead of wrapping. */
  function Sub(t: Time, u: Time): (d: Duration)
    ensures InRange(t - u) ==> d == t - u
    ensures t >= u ==> d >= 0
    ensures t <= u ==> d <= 0
  {
    if t - u > MAX_DURATION then MAX_DURATION
    else if t - u < MIN_DURATION then MIN_DURATION
    else t - u
  }

  function Max(a: int, b: int): int { if a >= b then a else b }

  function Min(a: int, b: int): int { if a <= b then a else b }

  // ----- Bytes -----

  type Byte = b: int | 0 <= b < 256

  predicate IsDigit(c: char) { '0' <= c <= '9' }

  predicate IsUpper(c: char) { 'A' <= c <= 'Z' }

  predicate IsLower(c: char) { 'a' <= c <= 'z' }

  /** The `tchar` of section 5.6.2 of RFC 9110, which is also a valid header field byte. */
  predicate IsTokenChar(c: char) {
    IsDigit(c) || IsUpper(c) || IsLower(c) ||
    c in {'!', '#', '$', '%', '&', '\'', '*', '+', '-', '.', '^', '_', '`', '|', '~'}
  }

  predicate IsTokenText(s: string) {
    forall i :: 0 <= i < |s| ==> IsTokenChar(s[i])
  }

  predicate IsToken(s: string) {
    s != "" && IsTokenText(s)
  }

  /** The whitespace `textproto.TrimString` removes. */
  predicate IsSpace(c: char) { c == ' ' || c == '\t' || c == '\n' || c == '\r' }

  /** Index of the first `c`, or the length: where `strings.Cut` cuts. */
  function FirstIndex(s: string, c: char): (i: nat)
    ensures i <= |s|
    ensures i < |s| ==> s[i] == c
    ensures forall j :: 0 <= j < i ==> s[j] != c
  {
    if s == "" || s[0] == c then 0 else 1 + FirstIndex(s[1..], c)
  }

  function TrimLeft(s: string): (r: string)
    ensures r == "" || !IsSpace(r[0])
  {
    if s != "" && IsSpace(s[0]) then TrimLeft(s[1..]) else s
  }

  function TrimRight(s: string): (r: string)
    ensures r <= s
    ensures r == "" || !IsSpace(r[|r| - 1])
  {
    if s != "" && IsSpace(s[|s| - 1]) then TrimRight(s[..|s| - 1]) else s
  }

  function Trim(s: string): string {
    TrimRight(TrimLeft(s))
  }

  /** ASCII whitespace, as `strings.TrimSpace` removes it. */
  predicate IsBlank(c: char) { IsSpace(c) || c == '\U{B}' || c == '\U{C}' }

  function DropBlanks(s: string): string {
    if s != "" && IsBlank(s[0]) then DropBlanks(s[1..])
    else if s != "" && IsBlank(s[|s| - 1]) then DropBlanks(s[..|s| - 1])
    else s
  }

  predicate AllBlanks(s: string) {
    forall i :: 0 <= i < |s| ==> s[i] in {' ', '\t', '\n', '\r', '\U{B}', '\U{C}'}
  }

  /** Blanks around a text go, everything else stays. */
  lemma {:induction false} BlanksDropped(lead: string, p: string, trail: string)
    requires AllBlanks(lead) && AllBlanks(trail) && p != ""
    requires p[0] !in {' ', '\t', '\n', '\r', '\U{B}', '\U{C}'} &&
             p[|p| - 1] !in {' ', '\t', '\n', '\r', '\U{B}', '\U{C}'}
    ensures DropBlanks(lead + p + trail) == p
    decreases |lead| + |trail|
  {
    var s := lead + p + trail;
    if lead != "" {
      assert lead[0] in {' ', '\t', '\n', '\r', '\U{B}', '\U{C}'};
      assert s[1..] == lead[1..] + p + trail;
      BlanksDropped(lead[1..], p, trail);
    } else if trail != "" {
      var n := |trail| - 1;
      assert trail[n] in {' ', '\t', '\n', '\r', '\U{B}', '\U{C}'};
      assert s[..|s| - 1] == lead + p + trail[..n];
      BlanksDropped(lead, p, trail[..n]);
    } else {
      assert s == p;
    }
  }

  function ToUpper(c: char): char {
    if IsLower(c) then (c as int - 32) as char else c
  }

  function ToLower(c: char): char {
    if IsUpper(c) then (c as int + 32) as char else c
  }

  function LowerCase(s: string): string {
    seq(|s|, i requires 0 <= i < |s| => ToLower(s[i]))
  }

  /** `http.CanonicalHeaderKey`: upper case after a hyphen, lower case elsewhere;
      a name with a byte no header field may hold is left alone. */
  function CanonicalKey(s: string): string {
    if IsTokenText(s) then seq(|s|, i requires 0 <= i < |s| => CanonicalByte(s, i)) else s
  }

  function CanonicalByte(s: string, i: nat): char
    requires i < |s|
  {
    if i == 0 || s[i - 1] == '-' then ToUpper(s[i]) else ToLower(s[i])
  }

  // ----- Decimal integers (strconv.ParseInt base 10, 64 bits) -----

  datatype Parsed = Number(n: int) | OutOfRange(limit: int) | Malformed

  const MAX_UINT64: int := TWO_64 - 1

  function ScanDigits(s: string, n: nat): (r: Parsed)
    ensures r.Number? ==> r.n >= n
  {
    if s == "" then Number(n)
    else if !IsDigit(s[0]) then Malformed
    else
      var n' := 10 * n + (s[0] as int - '0' as int);
      if n' > MAX_UINT64 then OutOfRange(MAX_UINT64) else ScanDigits(s[1..], n')
  }

  function ParseInt(s: string): (r: Parsed)
    ensures r.Number? ==> InRange(r.n)
  {
    var negative := s != "" && s[0] == '-';
    var digits := if s != "" && (s[0] == '-' || s[0] == '+') then s[1..] else s;
    if digits == "" then Malformed
    else
      match ScanDigits(digits, 0)
      case Malformed => Malformed
      case OutOfRange(_) => OutOfRange(if negative then MIN_DURATION else MAX_DURATION)
      case Number(n) =>
        if !negative && n > MAX_DURATION then OutOfRange(MAX_DURATION)
        else if negative && -n < MIN_DURATION then OutOfRange(MIN_DURATION)
        else Number(if negative then -n else n)
  }

  /** The value `n, _ := strconv.Atoi(s)` leaves in n: 0 for a malformed number, the
      nearest int64 for one out of range. */
  function Atoi(s: string): Duration {
    match ParseInt(s)
    case Number(n) => n
    case OutOfRange(limit) => if limit > 0 then MAX_DURATION else MIN_DURATION
    case Malformed => 0
  }

  /** `strconv.FormatUint` in base 10. */
  function Decimal(n: nat): (s: string)
    ensures s != ""
    ensures forall i :: 0 <= i < |s| ==> IsDigit(s[i])
  {
    var last := [('0' as int + n % 10) as char];
    if n < 10 then last else Decimal(n / 10) + last
  }
}
