/**
  Age and freshness (sections 4.2.1 to 4.2.4 of RFC 9111): `internal/freshness.go`, in
  64-bit nanoseconds with wrap-around, and the two later readers of the result,
  `SetAgeHeader` and `CanStaleOnError`.
 */
module Freshness {
  import opened Base
  import opened Http
  import CC = CacheControl

  /** The clock readings one step may take, in the order the code takes them. Nothing is
      assumed about how they relate. */
  datatype Clock = Clock(
    resident: Time, stamped: Time, swr: Time, start: Time, end: Time, policy: Time, served: Time)

  datatype Age = Age(value: Duration, timestamp: Time)

  datatype Freshness = Freshness(isStale: bool, age: Age, usefulLife: Duration)

  // ----- Age -----

  /** The Age field as a number of seconds; 0 when absent or malformed. */
  function AgeField(h: Header): Duration {
    if Get(h, "Age") == "" then 0 else Atoi(Get(h, "Age"))
  }

  /** The corrected age at receipt: the apparent age, or the Age field plus the response
      delay, both products and sums in 64 bits. */
  function InitialAge(h: Header, date: Time, requestTime: Time, responseTime: Time): Duration {
    var apparentAge := Max(Sub(responseTime, date), 0);
    var responseDelay := Max(Sub(responseTime, requestTime), 0);
    var correctedAgeValue := Wrap64(Wrap64(AgeField(h) * SECOND) + responseDelay);
    Max(apparentAge, correctedAgeValue)
  }

  /** `calculateCurrentAge`, with `now` the reading behind the resident time. */
  function AgeValue(h: Header, date: Time, requestTime: Time, responseTime: Time, now: Time): Duration {
    var residentTime := Max(Sub(now, responseTime), 0);
    Wrap64(InitialAge(h, date, requestTime, responseTime) + residentTime)
  }

  function CurrentAge(lib: Library, e: Entry, clock: Clock): Age {
    Age(AgeValue(e.data.header, DateOf(lib, e.data.header), e.requestedAt, e.receivedAt, clock.resident),
        clock.stamped)
  }

  /** The age at a later reading: the value computed before plus the time since. */
  function Adjusted(age: Age, now: Time): Duration {
    Wrap64(age.value + Sub(now, age.timestamp))
  }

  /** `SetAgeHeader`: whole seconds, never negative. */
  function AgeSeconds(age: Age, now: Time): nat {
    Max(Adjusted(age, now), 0) / SECOND
  }

  // ----- Lifetime -----

  /** A tenth of the time since Last-Modified, rounded to a second, half up. */
  function Heuristic(lib: Library, h: Header, date: Time): (d: Duration)
    ensures d >= 0
  {
    match ParseDate(lib, Get(h, "Last-Modified"))
    case None => 0
    case Some(lastModified) =>
      if lastModified >= date then 0
      else
        RoundToSecond(Sub(date, lastModified) / 10)
  }

  /** `Duration.Round(time.Second)` of a duration far from the limit: half up. */
  function RoundToSecond(d: nat): (r: nat)
    requires d <= MAX_DURATION / 10
    ensures r % SECOND == 0 && r <= MAX_DURATION
    ensures 2 * d - SECOND < 2 * r <= 2 * d + SECOND
  {
    var excess := d % SECOND;
    assert d == SECOND * (d / SECOND) + excess;
    if 2 * excess < SECOND then SECOND * (d / SECOND) else SECOND * (d / SECOND + 1)
  }

  /** What is left when max-age gives no positive lifetime: Expires, else the heuristic. */
  function Fallback(lib: Library, e: Entry, resCC: CC.Directives): (d: Duration)
    ensures d >= 0
  {
    var h := e.data.header;
    var date := DateOf(lib, h);
    var expires := ParseDate(lib, Get(h, "Expires"));
    if expires.Some? && expires.value > date then Sub(expires.value, date)
    else if Get(h, "Expires") == "" && (HeuristicallyCacheable(e.data.status) || CC.Public(resCC))
    then Heuristic(lib, h, date)
    else 0
  }

  function ResponseLife(lib: Library, e: Entry, resCC: CC.Directives): (d: Duration)
    ensures d >= 0
  {
    var maxAge := CC.MaxAge(resCC);
    if maxAge.Some? && maxAge.value > 0 then maxAge.value else Fallback(lib, e, resCC)
  }

  /** The lifetime after the request's own max-age. */
  function UsefulLife(lib: Library, e: Entry, reqCC: CC.Directives, resCC: CC.Directives): (d: Duration)
    ensures d >= 0
  {
    var life := ResponseLife(lib, e, resCC);
    var maxAge := CC.MaxAge(reqCC);
    if maxAge.Some? && maxAge.value > 0 then Min(life, maxAge.value) else life
  }

  // ----- Stale or fresh -----

  /** min-fresh as the code uses it: only a positive amount counts. */
  function MinFreshOf(reqCC: CC.Directives): (d: Duration)
    ensures d >= 0
  {
    match CC.MinFresh(reqCC)
    case Some(v) => Max(v, 0)
    case None => 0
  }

  /** The verdict on an age, with the wrap-around of both 64-bit sums. */
  predicate StaleAt(age: Duration, life: Duration, minFresh: Duration, maxStale: Duration) {
    if minFresh > 0 && Wrap64(life - age) < minFresh then true
    else age >= life && !(maxStale > 0 && age < Max(Wrap64(life + maxStale), maxStale))
  }

  /** `CalculateFreshness` */
  function Calculate(lib: Library, e: Entry, reqCC: CC.Directives, resCC: CC.Directives, clock: Clock): (f: Freshness)
    ensures f.usefulLife >= 0
  {
    if CC.MaxAge(reqCC) == Some(0) then Freshness(true, Age(0, clock.stamped), 0)
    else
      var age := CurrentAge(lib, e, clock);
      var life := UsefulLife(lib, e, reqCC, resCC);
      Freshness(StaleAt(age.value, life, MinFreshOf(reqCC), CC.MaxStale(reqCC)), age, life)
  }

  /** `CanStaleOnError` with the error response's directives. */
  predicate CanStaleOnError(f: Freshness, resCC: CC.Directives, now: Time) {
    match CC.StaleIfError(resCC)
    case None => false
    case Some(dur) => Adjusted(f.age, now) <= Wrap64(f.usefulLife + dur)
  }

  /** `CanStaleOnError` over several sources: the first that allows the age ends the loop. The
      clock is read once per source that has a valid duration. */
  method StaleOnError(f: Freshness, sources: seq<Option<CC.Directives>>, readings: seq<Time>) returns (ok: bool)
    requires |readings| == |sources|
    ensures ok <==>
            exists i :: 0 <= i < |sources| && sources[i].Some? && CanStaleOnError(f, sources[i].value, readings[i])
  {
    for i := 0 to |sources|
      invariant forall j :: 0 <= j < i ==> !(sources[j].Some? && CanStaleOnError(f, sources[j].value, readings[j]))
    {
      if sources[i].None? {
        continue;
      }
      var dur := CC.StaleIfError(sources[i].value);
      if dur.None? {
        continue;
      }
      var age := Wrap64(f.age.value + Sub(readings[i], f.age.timestamp));
      if age <= Wrap64(f.usefulLife + dur.value) {
        return true;
      }
    }
    return false;
  }

  // ----- The freshness threshold -----

  /** The first age that is stale. */
  function Threshold(life: Duration, minFresh: Duration, maxStale: Duration): int {
    if minFresh > 0 then life - minFresh + 1
    else if maxStale > 0 then Max(life, Max(Wrap64(life + maxStale), maxStale))
    else life
  }

  /** For a non-negative age the verdict is a comparison with one number. */
  lemma StaleIffThreshold(age: Duration, life: Duration, minFresh: Duration, maxStale: Duration)
    requires 0 <= age && 0 <= life && 0 <= minFresh && 0 <= maxStale
    ensures StaleAt(age, life, minFresh, maxStale) <==> age >= Threshold(life, minFresh, maxStale)
  {
  }

  /** The guard against wrap-around never accepts more than the exact sum, and is the
      exact sum whenever that fits. */
  lemma ThresholdBound(life: Duration, minFresh: Duration, maxStale: Duration)
    requires 0 <= life && 0 <= minFresh && 0 <= maxStale
    ensures Threshold(life, minFresh, maxStale) <= life + maxStale
    ensures minFresh == 0 && InRange(life + maxStale) ==> Threshold(life, minFresh, maxStale) == life + maxStale
  {
  }

  /** A fresh verdict bounds the computed age, negative or not, by the exact sum. */
  lemma FreshBound(age: Duration, life: Duration, minFresh: Duration, maxStale: Duration)
    requires 0 <= life && 0 <= minFresh && 0 <= maxStale
    requires !StaleAt(age, life, minFresh, maxStale)
    ensures age < life + maxStale
  {
  }

  /** A stricter request should not accept older replies, nor a more lenient one refuse
      younger ones. min-fresh keeps that always. A request max-age breaks it exactly when the
      lifetime plus max-stale wraps and the max-age plus max-stale does not and is above the
      lifetime; a larger max-stale exactly when only its own sum wraps, and the smaller sum was
      above both the lifetime and the larger max-stale. */
  lemma ThresholdMonotone(life: Duration, maxAge: Duration, minFresh: Duration, minFresh': Duration,
                          maxStale: Duration, maxStale': Duration)
    requires 0 <= life && 0 < maxAge && 0 <= minFresh <= minFresh' && 0 <= maxStale <= maxStale'
    ensures Threshold(Min(life, maxAge), minFresh, maxStale) > Threshold(life, minFresh, maxStale) <==>
              minFresh == 0 && maxStale > 0 && life + maxStale > MAX_DURATION &&
              life < maxAge + maxStale <= MAX_DURATION
    ensures Threshold(life, minFresh, maxStale') < Threshold(life, minFresh, maxStale) <==>
              minFresh == 0 && maxStale > 0 && life + maxStale <= MAX_DURATION < life + maxStale' &&
              Max(life, maxStale') < life + maxStale
    ensures Threshold(life, minFresh', maxStale) <= Threshold(life, minFresh, maxStale)
  {
  }

  /** An input for the first failure: with 6000000000 s of lifetime and of max-stale the sum
      wraps, and a request max-age of 3000000000 s accepts replies 3000000000 s older. */
  lemma RequestMaxAgeCanRaiseThreshold()
    ensures Threshold(6_000_000_000 * SECOND, 0, 6_000_000_000 * SECOND) == 6_000_000_000 * SECOND
    ensures Threshold(Min(6_000_000_000 * SECOND, 3_000_000_000 * SECOND), 0, 6_000_000_000 * SECOND)
            == 9_000_000_000 * SECOND
  {
  }

  /** An input for the second: a reply with that lifetime and an age of 8000000000 s is accepted
      with a max-stale of 3000000000 s and refused with one of 6000000000 s. */
  lemma MaxStaleCanLowerThreshold()
    ensures Threshold(6_000_000_000 * SECOND, 0, 3_000_000_000 * SECOND) == 9_000_000_000 * SECOND
    ensures !StaleAt(8_000_000_000 * SECOND, 6_000_000_000 * SECOND, 0, 3_000_000_000 * SECOND)
    ensures StaleAt(8_000_000_000 * SECOND, 6_000_000_000 * SECOND, 0, 6_000_000_000 * SECOND)
  {
  }

  /** The heuristic lifetime is a whole number of seconds within half a second of a tenth of
      the time since Last-Modified, and nothing for one that is not in the past. */
  lemma HeuristicRounds(lib: Library, h: Header, date: Time)
    ensures Heuristic(lib, h, date) % SECOND == 0
    ensures var lastModified := ParseDate(lib, Get(h, "Last-Modified"));
            if lastModified.None? || lastModified.value >= date then Heuristic(lib, h, date) == 0
            else
              -5 * SECOND - 10 < 10 * Heuristic(lib, h, date) - Min(MAX_DURATION, date - lastModified.value)
                <= 5 * SECOND
  {
  }

  // ----- Age accounting -----

  /** Section 4.2.3 of RFC 9111 in unbounded integers. */
  function ExactAge(h: Header, date: Time, requestTime: Time, responseTime: Time, now: Time): int {
    Max(Max(0, responseTime - date), AgeField(h) * SECOND + Max(0, responseTime - requestTime))
    + Max(0, now - responseTime)
  }

  /** The Age field in nanoseconds plus the response delay, without wrap-around. */
  function CorrectedAge(h: Header, requestTime: Time, responseTime: Time): int {
    AgeField(h) * SECOND + Max(0, responseTime - requestTime)
  }

  /** The age at receipt as the code reckons it, had the apparent age no upper limit. */
  function ReckonedAge(h: Header, date: Time, requestTime: Time, responseTime: Time): int {
    Max(Max(0, responseTime - date),
        Wrap64(AgeField(h) * SECOND + Min(MAX_DURATION, Max(0, responseTime - requestTime))))
  }

  /** No sum leaves the 64 bits upwards: what is reckoned loses nothing of the Age field, and
      with the time since receipt it fits. */
  predicate AgeFits(h: Header, date: Time, requestTime: Time, responseTime: Time, now: Time) {
    CorrectedAge(h, requestTime, responseTime) <= ReckonedAge(h, date, requestTime, responseTime) &&
    ReckonedAge(h, date, requestTime, responseTime) + Max(0, now - responseTime) <= MAX_DURATION
  }

  /** The Age field does not wrap from below, and the response delay does not saturate beneath a
      negative one. */
  predicate NoUnderflow(h: Header, requestTime: Time, responseTime: Time) {
    AgeField(h) >= 0 ||
    (CorrectedAge(h, requestTime, responseTime) >= MIN_DURATION && responseTime - requestTime <= MAX_DURATION)
  }

  /** Wrapping early does not show in a wrapped sum. */
  lemma WrapAdd(x: int, y: int)
    ensures Wrap64(Wrap64(x) + y) == Wrap64(x + y)
  {
  }

  /** The inner wrap-around does not show, and saturation only as an upper limit. */
  lemma InitialAgeWraps(h: Header, date: Time, requestTime: Time, responseTime: Time)
    ensures InitialAge(h, date, requestTime, responseTime)
            == Min(MAX_DURATION, ReckonedAge(h, date, requestTime, responseTime))
  {
    WrapAdd(AgeField(h) * SECOND, Min(MAX_DURATION, Max(0, responseTime - requestTime)));
  }

  /** For every Age field, Date and clock: the computed age is not below the exact one if and only
      if the sums fit; it is the exact one if and only if, besides, a negative Age field does
      not wrap to something above what is exact at receipt. */
  lemma AgeExact(h: Header, date: Time, requestTime: Time, responseTime: Time, now: Time)
    ensures var age := AgeValue(h, date, requestTime, responseTime, now);
            var exact := ExactAge(h, date, requestTime, responseTime, now);
            var atReceipt := ExactAge(h, date, requestTime, responseTime, responseTime);
            var fits := AgeFits(h, date, requestTime, responseTime, now);
            && 0 <= exact
            && (age >= exact <==> fits)
            && (age == exact <==> fits && ReckonedAge(h, date, requestTime, responseTime) <= atReceipt)
            && (NoUnderflow(h, requestTime, responseTime) ==> (fits <==> exact <= MAX_DURATION))
  {
    InitialAgeWraps(h, date, requestTime, responseTime);
  }

  /** Unless the Age field underflows, so for every non-negative one, the computed age is the exact
      one if and only if that fits in 64 bits. */
  lemma AgeExactIff(h: Header, date: Time, requestTime: Time, responseTime: Time, now: Time)
    requires NoUnderflow(h, requestTime, responseTime)
    ensures AgeValue(h, date, requestTime, responseTime, now) == ExactAge(h, date, requestTime, responseTime, now)
            <==> ExactAge(h, date, requestTime, responseTime, now) <= MAX_DURATION
  {
    AgeExact(h, date, requestTime, responseTime, now);
  }

  /** The least Age field that overflows makes a reply brand new: computed age 0, exact age
      above 292 years. */
  lemma AgeOverflows(h: Header, t: Time)
    requires Get(h, "Age") == "9223372037"
    ensures AgeField(h) == 9223372037 && AgeValue(h, t, t, t, t) == 0 && ExactAge(h, t, t, t, t) > MAX_DURATION
  {
    CC.DeltaSecondsWraps();
  }

  /** The greatest that underflows makes a brand-new reply 292 years old. */
  lemma AgeUnderflows(h: Header, t: Time)
    requires Get(h, "Age") == "-9223372037"
    ensures AgeField(h) == -9223372037 && ExactAge(h, t, t, t, t) == 0
            && AgeValue(h, t, t, t, t) > 9223372036 * SECOND
  {
    CC.DeltaSecondsWraps();
    assert "-9223372037"[1..] == "9223372037";
  }

  /** A Date 300 years before receipt gives the greatest age there is, and a second later a
      negative one. */
  lemma AncientDate(h: Header, t: Time)
    requires Get(h, "Age") == ""
    ensures var date := t - 9_460_800_000 * SECOND;
            && AgeValue(h, date, t, t, t) == MAX_DURATION < ExactAge(h, date, t, t, t)
            && AgeValue(h, date, t, t, t + SECOND) < 0
  {
  }

  /** No Age field, negative or malformed, makes the age less than the apparent age plus the
      resident time, unless the sum leaves the 64 bits: then the age is negative, or the
      greatest there is. */
  lemma AgeAtLeastApparent(h: Header, date: Time, requestTime: Time, responseTime: Time, now: Time)
    ensures var age := AgeValue(h, date, requestTime, responseTime, now);
            var least := Max(0, responseTime - date) + Max(0, now - responseTime);
            if ReckonedAge(h, date, requestTime, responseTime) + Max(0, now - responseTime) <= MAX_DURATION
            then age >= least >= 0
            else age < least && (age < 0 || age == MAX_DURATION)
  {
    InitialAgeWraps(h, date, requestTime, responseTime);
  }

  /** After receipt the age grows with the clock, but for the moment at which it leaves the 64
      bits, and up to 292 years after receipt. */
  lemma AgeGrows(h: Header, date: Time, requestTime: Time, responseTime: Time, now: Time, later: Time)
    requires responseTime <= now <= later
    ensures AgeValue(h, date, requestTime, responseTime, later)
            == AgeValue(h, date, requestTime, responseTime, now) + (later - now)
            <==> later == now ||
                 (later - responseTime <= MAX_DURATION &&
                  !(InitialAge(h, date, requestTime, responseTime) + (now - responseTime) <= MAX_DURATION
                    < InitialAge(h, date, requestTime, responseTime) + (later - responseTime)))
  {
  }

  /** Adding the time since the first reading gives the age at the second. */
  lemma AdjustedIsLater(h: Header, date: Time, requestTime: Time, responseTime: Time, t0: Time, t1: Time)
    requires responseTime <= t0 <= t1 <= responseTime + MAX_DURATION
    ensures Adjusted(Age(AgeValue(h, date, requestTime, responseTime, t0), t0), t1)
            == AgeValue(h, date, requestTime, responseTime, t1)
  {
    WrapAdd(InitialAge(h, date, requestTime, responseTime) + (t0 - responseTime), t1 - t0);
  }

  /** Computing the age at t0 and writing the Age field at t1 gives what computing and
      writing at t1 would have given, whatever wraps. */
  lemma AgeHeaderIndependentOfReading(h: Header, date: Time, requestTime: Time, responseTime: Time, t0: Time, t1: Time)
    requires responseTime <= t0 <= t1 <= responseTime + MAX_DURATION
    ensures AgeSeconds(Age(AgeValue(h, date, requestTime, responseTime, t0), t0), t1)
            == AgeSeconds(Age(AgeValue(h, date, requestTime, responseTime, t1), t1), t1)
    ensures NoUnderflow(h, requestTime, responseTime) &&
            ExactAge(h, date, requestTime, responseTime, t1) <= MAX_DURATION ==>
              AgeSeconds(Age(AgeValue(h, date, requestTime, responseTime, t0), t0), t1)
              == ExactAge(h, date, requestTime, responseTime, t1) / SECOND
  {
    AdjustedIsLater(h, date, requestTime, responseTime, t0, t1);
    AdjustedIsLater(h, date, requestTime, responseTime, t1, t1);
    AgeExact(h, date, requestTime, responseTime, t1);
  }

  // ----- The same for an entry -----

  function ExactAgeAt(lib: Library, e: Entry, now: Time): int {
    ExactAge(e.data.header, DateOf(lib, e.data.header), e.requestedAt, e.receivedAt, now)
  }

  predicate FitsAt(lib: Library, e: Entry, now: Time) {
    AgeFits(e.data.header, DateOf(lib, e.data.header), e.requestedAt, e.receivedAt, now)
  }

  /** A bound on the computed age bounds the exact one where the sums fit. If the bound itself fits
      and nothing underflows, only there. */
  lemma BoundCarries(lib: Library, e: Entry, now: Time, bound: int)
    requires var h := e.data.header;
             AgeValue(h, DateOf(lib, h), e.requestedAt, e.receivedAt, now) < bound
    ensures FitsAt(lib, e, now) ==> ExactAgeAt(lib, e, now) < bound
    ensures bound <= MAX_DURATION + 1 && NoUnderflow(e.data.header, e.requestedAt, e.receivedAt) ==>
              (ExactAgeAt(lib, e, now) < bound <==> FitsAt(lib, e, now))
  {
    AgeExact(e.data.header, DateOf(lib, e.data.header), e.requestedAt, e.receivedAt, now);
  }

  // ----- Staleness over time -----

  /** The age before the last wrap-around: the initial age and the time since receipt, neither
      above the 64-bit limit. */
  function AgeSum(lib: Library, e: Entry, now: Time): int {
    InitialAge(e.data.header, DateOf(lib, e.data.header), e.requestedAt, e.receivedAt) + Max(Sub(now, e.receivedAt), 0)
  }

  /** An age that wrapped counts as stale only for its distance from min-fresh, which may wrap in
      its turn. */
  predicate WrappedStale(sum: int, life: Duration, minFresh: Duration) {
    minFresh > 0 && (life - (sum - TWO_64) < minFresh || life - (sum - TWO_64) > MAX_DURATION)
  }

  lemma WrappedVerdict(sum: int, life: Duration, minFresh: Duration, maxStale: Duration)
    requires MAX_DURATION < sum <= 2 * MAX_DURATION && 0 <= life && 0 <= minFresh
    ensures StaleAt(Wrap64(sum), life, minFresh, maxStale) <==> WrappedStale(sum, life, minFresh)
  {
    assert Wrap64(sum) == sum - TWO_64;
  }

  /** The verdict at any reading, by that sum. */
  lemma StaleIffSum(lib: Library, e: Entry, reqCC: CC.Directives, resCC: CC.Directives, clock: Clock)
    requires CC.MaxAge(reqCC) != Some(0)
    ensures var life, sum := UsefulLife(lib, e, reqCC, resCC), AgeSum(lib, e, clock.resident);
            && 0 <= sum <= 2 * MAX_DURATION
            && (Calculate(lib, e, reqCC, resCC, clock).isStale <==>
                  if sum <= MAX_DURATION then sum >= Threshold(life, MinFreshOf(reqCC), CC.MaxStale(reqCC))
                  else WrappedStale(sum, life, MinFreshOf(reqCC)))
  {
    var life, sum := UsefulLife(lib, e, reqCC, resCC), AgeSum(lib, e, clock.resident);
    assert CurrentAge(lib, e, clock).value == Wrap64(sum);
    if sum <= MAX_DURATION {
      StaleIffThreshold(sum, life, MinFreshOf(reqCC), CC.MaxStale(reqCC));
    } else {
      WrappedVerdict(sum, life, MinFreshOf(reqCC), CC.MaxStale(reqCC));
    }
  }

  /** A stale entry is stale at a later reading if and only if the request has max-age=0, or the
      sum still fits, or its wrapped value counts as stale: otherwise it turns fresh. */
  lemma StaysStale(lib: Library, e: Entry, reqCC: CC.Directives, resCC: CC.Directives, clock: Clock, later: Clock)
    requires e.receivedAt <= clock.resident <= later.resident
    requires Calculate(lib, e, reqCC, resCC, clock).isStale
    ensures var sum := AgeSum(lib, e, later.resident);
            Calculate(lib, e, reqCC, resCC, later).isStale <==>
              CC.MaxAge(reqCC) == Some(0) || sum <= MAX_DURATION ||
              WrappedStale(sum, UsefulLife(lib, e, reqCC, resCC), MinFreshOf(reqCC))
  {
    if CC.MaxAge(reqCC) != Some(0) {
      StaleIffSum(lib, e, reqCC, resCC, clock);
      StaleIffSum(lib, e, reqCC, resCC, later);
    }
  }

  /** The Expires field gives a lifetime: it parses and is later than the Date. */
  predicate ExpiresLater(lib: Library, h: Header) {
    var expires := ParseDate(lib, Get(h, "Expires"));
    expires.Some? && expires.value > DateOf(lib, h)
  }

  /** The lifetime of every reply, whatever it has, by the text and the times: a positive max-age; else
      the time from Date to a later Expires; else, without an Expires line and for these statuses or
      public, a tenth of the time from Last-Modified to Date, to the second; else none. A positive
      max-age of the request is an upper limit. */
  lemma LifetimeRules(lib: Library, e: Entry, reqCC: CC.Directives, resCC: CC.Directives)
    ensures var h := e.data.header;
            var date := if Get(h, "Date") != "" && lib.parseTime(Get(h, "Date")).Some?
                        then lib.parseTime(Get(h, "Date")).value else 0;
            var expires := if Get(h, "Expires") == "" then None else lib.parseTime(Get(h, "Expires"));
            var modified := if Get(h, "Last-Modified") == "" then None else lib.parseTime(Get(h, "Last-Modified"));
            var maxAge, limit := CC.MaxAge(resCC), CC.MaxAge(reqCC);
            var life := UsefulLife(lib, e, map[], resCC);
            && (maxAge.Some? && maxAge.value > 0 ==> life == maxAge.value)
            && (!(maxAge.Some? && maxAge.value > 0) ==>
                  if expires.Some? && expires.value > date then life == Min(MAX_DURATION, expires.value - date)
                  else if Get(h, "Expires") == "" && modified.Some? && modified.value < date &&
                          (e.data.status in {200, 203, 206, 301, 304, 404, 405, 410, 414, 501, 308} ||
                           "public" in resCC)
                  then life % 1_000_000_000 == 0 &&
                       -5_000_000_010 < 10 * life - Min(MAX_DURATION, date - modified.value) <= 5_000_000_000
                  else life == 0)
            && UsefulLife(lib, e, reqCC, resCC)
               == (if limit.Some? && 0 < limit.value < life then limit.value else life)
  {
    HeuristicRounds(lib, e.data.header, DateOf(lib, e.data.header));
  }

  /** Section 5.3 of RFC 9111 has Expires ignored when there is a max-age, and section 4.2.2 allows
      the heuristic only without an explicit time. In the code max-age decides the lifetime if
      and only if it is positive, or no later Expires and no heuristic steps in: with max-age=0
      (or one that wraps) the heuristic does for a reply without Expires, of a suitable status
      or public, last modified at least five seconds before its Date. */
  lemma MaxAgeWins(lib: Library, e: Entry, resCC: CC.Directives)
    requires CC.MaxAge(resCC).Some?
    ensures var h := e.data.header;
            var lastModified := ParseDate(lib, Get(h, "Last-Modified"));
            ResponseLife(lib, e, resCC) == Max(CC.MaxAge(resCC).value, 0) <==>
              CC.MaxAge(resCC).value > 0 ||
              (!ExpiresLater(lib, h) &&
               (Get(h, "Expires") != "" || !(HeuristicallyCacheable(e.data.status) || CC.Public(resCC)) ||
                lastModified.None? || Sub(DateOf(lib, h), lastModified.value) < 5 * SECOND))
  {
  }

  function WithExpires(e: Entry, line: string): Entry {
    e.(data := e.data.(header := Set(e.data.header, "Expires", line)))
  }

  /** Of Expires alone: a later one and a malformed one give the same lifetime if and only if the
      max-age is positive; otherwise the later one makes the reply fresh until then. */
  lemma ExpiresIgnoredIff(lib: Library, e: Entry, resCC: CC.Directives, later: string, bad: string)
    requires CC.MaxAge(resCC).Some?
    requires ParseDate(lib, later).Some? && ParseDate(lib, later).value > DateOf(lib, e.data.header)
    requires bad != "" && ParseDate(lib, bad).None?
    ensures ResponseLife(lib, WithExpires(e, later), resCC) == ResponseLife(lib, WithExpires(e, bad), resCC)
            <==> CC.MaxAge(resCC).value > 0
    ensures CC.MaxAge(resCC).value <= 0 ==>
              ResponseLife(lib, WithExpires(e, later), resCC)
              == Sub(ParseDate(lib, later).value, DateOf(lib, e.data.header)) > 0
              == ResponseLife(lib, WithExpires(e, bad), resCC)
  {
    assert |"Expires"| != |"Date"|;
  }
}
