# httpcache in Dafny

A model of the caching HTTP transport of `github.com/bartventer/httpcache`, a private cache
that follows RFC 9111, and proofs of what it keeps.

The transport is a state machine. Its backend is one key space that holds ref lists (by URL
key) and stored responses (by response ID). One foreground `RoundTrip` is one step; each
background revalidation started by stale-while-revalidate is a later step of its own, in any
order. A step takes the upstream reply (or its failure), every clock reading it makes, and
the keys for which the backend fails. The world also holds the trace of upstream exchanges,
and each stored entry its lineage: the numbers of the exchanges it descends from. Lineage
and trace are history; no branch reads them.

What a step does is computed by pure functions (module `Protocol`) as a verdict: the reply, one
effect on the backend, the exchange, and possibly a job. The class `Transport.Transport`
does the same work imperatively, handler by handler, and is proved to carry the verdict out.
All results about runs are lemmas about the protocol, for every sequence of steps.

| file | contents |
|---|---|
| Base, Ordering, Digits | durations that wrap, byte strings; sorting; decimal numbers as text |
| Csv, QuotedString, CacheControl, Directives | list splitting, quoted-strings, directives, and their printers; what printed lines mean to the accessors |
| Http | messages, header functions, storability, origins |
| Freshness | age and freshness in 64-bit nanoseconds |
| Vary, HeaderValues, Normalization, Encodings, VaryHash | selection, canonical forms, the hashed text |
| Protocol, Transport | the state machine and the code that implements it |
| Provenance, Origins, Agreement, Invalidation, Integrity, Resurrection, Service, Frame | properties of steps and runs |
| Wire | the same seen from outside, in the words and numbers of the messages |
| Cases, Variants | concrete runs and answers for the properties the code does not have |
| PercentEncoding, FileNames | URL key normalization, file names of the file system backend |

## What is assumed

Library code the model does not look into is a record of functions, `Http.Library`, over which
every result is universally quantified: parsing and printing of HTTP dates, the header value
normalizer, the 64-bit Vary hash, `slices.SortFunc` and URL resolution. Where a result needs
more, it says so: `PermutesRefs` and `SortsRefs` are what a sort promises, stable or not.
URL keys without `#` are a hypothesis wherever entry keys must name their URL key
(`PercentEncoding.KeepsHashFree` shows that normalization brings no `#` in). Entries and ref
lists are read back as they were written.

## Where the code and its promises part

The model follows the code. Each point below names the lemma with the exact condition, for all
inputs, and a concrete input.

- A pending background revalidation can bring back a response that an unsafe request invalidated:
  `Resurrection.NeverOlderIff` says that older responses stay away exactly when none is
  pending. `Cases.Resurrected` is such a run: GET, stale GET, POST, the revalidation's 304, GET.
- A background revalidation forgets every other stored variant of its URL, exactly when
  upstream's answer to it is stored (`Agreement.BackgroundForgets`); `Variants.VariantForgotten`
  is a run with two variants that loses one.
- A 304 that answers a client's own precondition on a miss is stored as a response of its own
  (`Origins.RunFullIff`, `Origins.BareStored`), and on a hit it counts for the stored response
  although that has no such validator (`Http.OnlyStoredPreconditionsIff`,
  `Service.ForeignPrecondition`, `Cases.ForeignAnswered`).
- Request no-cache is answered without contact inside a stale-while-revalidate window or with
  only-if-cached (`Service.RequestNoCacheIff`, `Cases.NoCacheServed`), and must-revalidate yields
  to max-stale (`Service.MustRevalidateIff`, `Cases.MustRevalidateServed`).
- Request only-if-cached does reach the origin on a hit whose revalidation is forced, and is
  otherwise served an entry of any staleness as a hit (`Service.OnlyIfCachedIff`,
  `Cases.OnlyIfCachedAsks`, `Cases.OnlyIfCachedAnyAge`).
- Fields listed in `no-cache="..."` are withheld from hits only; stale and revalidated replies
  show them (`Service.WithheldOnHitOnly`, `Cases.WithheldShown`), and a reply given while
  revalidating keeps the stored Age line (`Service.StaleAndJobShows`).
- Request max-age=0 makes the code count the entry as born with the request: its own age bounds
  neither a reply on an error status (`Service.StaleIfErrorMaxAgeZero`, `Cases.MaxAgeZeroServed`)
  nor one while revalidating (`Service.MaxAgeZeroIff`, `Cases.MaxAgeZeroInWindow`).
- A response max-age of 0 does not put a later Expires or the heuristic out of play
  (`Freshness.MaxAgeWins`, `Cases.ExpiresServed`, `Cases.HeuristicServed`).
- An Age field of 9223372037 makes a response brand new, one of -9223372037 makes it 292 years old,
  and a Date 300 years back makes it the oldest there is at receipt and negative afterwards
  (`Freshness.AgeExact`, `Freshness.AgeOverflows`, `Freshness.AgeUnderflows`,
  `Freshness.AncientDate`). Such responses pass as hits (`Service.HitTrulyFresh`,
  `Cases.OverflowServed`, `Cases.AncientServed`), while revalidating
  (`Service.SwrTrulyBounded`, `Cases.AncientInWindow`) and on errors
  (`Service.StaleIfErrorTrulyBounded`, `Cases.AncientOnError`). A delta of 9223372037 seconds
  or more wraps as well (`CacheControl.DeltaSecondsExact`, `CacheControl.DeltaSecondsWraps`).
- So a stale response can turn fresh as the clock advances (`Freshness.StaysStale`,
  `Cases.AncientTurnsFresh`).
- Near the end of the range a request max-age can make older responses acceptable, and a larger
  max-stale can make younger ones unacceptable (`Freshness.ThresholdMonotone`,
  `Freshness.RequestMaxAgeCanRaiseThreshold`, `Freshness.MaxStaleCanLowerThreshold`).
- Of equally ranked matching variants the one with the earliest Date wins
  (`Vary.EarliestPreferred`); section 4.1 of RFC 9111 asks for the most recent. The most recent
  one is selected exactly when all matches of the first class are as recent as any
  (`Vary.MostRecentIff`); `Variants.EarlierServed` is a run in which it is not.
- The hashed Vary text is ambiguous, so two field sets can share a response ID
  (`VaryHash.AmbiguousText`): over arbitrary values of the fields of one Vary, exactly when there
  are two or more (`VaryHash.SeparatesIff`), but not when all but the first are normalized to
  lower case (`VaryHash.LowerSeparates`). `Variants.WrongVariantServed` is a run in which one
  reply overwrites another and is served in its place.
- Compaction of quality values keeps a main value twice when another one ranks between
  (`Normalization.MainsOnceIff`, `Normalization.MainKeptTwice`), and the table entry `TE` never
  applies (`HeaderValues.TeNotNormalized`, `HeaderValues.TeOrderCounts`).
- Percent-encoding normalization is not idempotent where a stray `%` comes to stand before two hex
  digits (`PercentEncoding.IdempotentIff`, `PercentEncoding.StrayNotIdempotent`), and there, or
  where Latin-1 letters are escaped, it changes the decoded bytes
  (`PercentEncoding.DecodedPreservedIff`, `PercentEncoding.Latin1Rewritten`). So two URLs that
  mean different things can share a key (`PercentEncoding.SameKeyIff`,
  `PercentEncoding.SharedKey`).
- One key's file can stand where another key's directory has to be (`FileNames.ObstructsIff`,
  `FileNames.FileInTheWay`).
- Only the first Cache-Control line is read, so a no-store on a later one does not keep a response
  from being stored (`Http.OnlyFirstLine`, `Http.LaterNoStoreIgnored`).

## Model

| member | source | states |
|---|---|---|
| Provenance.RunOk | roundtripper.go:180-289 | in every run from the empty cache, with background steps and any backend faults, each stored entry descends from one admitted reply to a Range-less GET for its URL key and later 304s for it: status, body and times are theirs, its header is their overlay up to the status stamps and free of the fixed hop-by-hop fields; each ref was made for a request to its URL key; each pending job likewise |
| Provenance.NextOk | roundtripper.go:414-456 | one step, foreground or background, keeps all of that, and the trace only grows |
| Provenance.StoreMerged | internal/validationresponsehandler.go:78-93 | an entry freshened by a 304 has the old lineage plus that 304, and is stored under the key its merged Vary and the conditional request give |
| Provenance.StoreOrigin | internal/responsestorerer.go:52-76 | an admitted reply, stored, starts a lineage of its own |
| Origins.RunFullIff | internal/cacheabilityevaluator.go:32-62 | in every run with successful writes the stored responses are all full replies, and not 304s, at every point if and only if no miss admits a 304: one without only-if-cached, and no-store on neither side |
| Origins.NextFullIff | roundtripper.go:250-289 | the same for one step, and under write faults in one direction |
| Origins.OriginsFull | roundtripper.go:271-279 | in every run without such a step each lineage starts with a full reply, whatever the backend does |
| Origins.BareStored | roundtripper.go:271-279 | the first request, with a precondition of its own and answered 304, stores a 304 |
| Provenance.FindOk | roundtripper.go:187-211 | the entry a lookup selects belongs to the request's own URL key, and the ref it came by matches the request |
| Agreement.StoredFieldLatest | internal/helpers.go:85-94 | in every run a stored field other than the stamps has the lines of the latest exchange of the lineage that gives it, and is absent when none gives it |
| Agreement.SelectedRefAgrees | internal/varymatcher.go:63-89 | in every run the selected ref's Vary is not "*" and some earlier request to the same URL key agrees with the new one on every field that Vary nominates |
| Agreement.SelectedEntryAgrees | internal/responsestorerer.go:63-90 | unless two Vary maps collide under the hash, the entry read was last written for a request that agrees with the new one on every field the entry's own Vary nominates |
| Agreement.SelectedEntryAgreesOnLines | internal/responsestorerer.go:63-90 | the same on the lines: for every element of every Vary line of the entry read (none leaving a quote open) the two requests have the same normal form in the field it names |
| Vary.NominatedByLines | internal/responsestorerer.go:63-67 | the names the Vary lines of a header nominate are the canonical names of all elements of all lines, and no others |
| Agreement.StoredRequestMatches | internal/varymatcher.go:72-89 | repeating the stored request finds a match on the list just written unless the stored Vary is exactly "*" |
| Agreement.ForegroundConserves | internal/responsestorerer.go:78-98 | a foreground store changes the ref list, as a multiset, by the selected ref out and one ref for the written entry in, or by the new one only |
| Agreement.BackgroundForgets | roundtripper.go:439-448 | a variant other than the one written stays found after a background revalidation if and only if upstream's answer is not stored; if it is, no lookup for the URL key finds any entry but the one just written, if not, every lookup is as before |
| Agreement.BackgroundStoresIff | internal/validationresponsehandler.go:78-122 | that answer is stored exactly when it is a 304 to a GET, or may be stored and is no error the stale entry stands in for |
| Variants.VariantForgotten | roundtripper.go:414-456 | a run from the empty cache in which the revalidation of one variant makes the other unreachable |
| Agreement.SameKeySameMap | internal/normalization.go:332-338 | response IDs of one URL key are equal only for equal maps, hash collisions aside |
| Integrity.RunResolves | internal/responsestorerer.go:52-99 | in every run without backend failures each ref resolves to a stored entry, lists and entries never share a key, and an ID is on the lists of one URL key only |
| Integrity.EraseKeepsResolves | internal/cacheinvalidator.go:40-58 | an invalidation leaves every surviving list with all its entries |
| Integrity.ShapeFromProvenance | internal/normalization.go:332-338 | keys of the two kinds and owners of IDs are kept apart under any faults |
| Invalidation.DeletionsExact | internal/cacheinvalidator.go:40-58 | the deletions issued, each key once, are exactly the target, the same-origin locations and the IDs on their lists, and every URL key goes only after all IDs of its list |
| Invalidation.TrailExact | internal/cacheinvalidator.go:46-86 | the same of the deletions asked for, with repetitions |
| Invalidation.LocationTrailExact | internal/cacheinvalidator.go:62-86 | the same for the location headers, although each list is read after earlier deletions |
| Resurrection.NoResurrection | roundtripper.go:232-239 | after an unsafe request with a 2xx or 3xx has addressed a URL key, as target or same-origin location, with no background revalidation pending for it, no later lookup in any continuation with successful writes finds an entry of an earlier reply |
| Resurrection.NeverOlderIff | roundtripper.go:414-456 | where the list holds nothing older, older entries stay away in every continuation if and only if no pending job holds one |
| Resurrection.PendingResurrects | internal/validationresponsehandler.go:78-93 | a pending job always can bring its entry back: one 304 and a lookup |
| Cases.Resurrected | roundtripper.go:387-456 | a run from the empty cache (GET, stale GET, POST, the pending revalidation) after which a GET is served, without contact, the body of a reply that a POST had invalidated |
| Resurrection.InvalidationCuts | internal/cacheinvalidator.go:40-86 | the invalidating step removes the list of every key it addresses and starts no job |
| Resurrection.RunCut | internal/responsestorerer.go:76-98 | the cut survives every continuation, orphaned variants included |
| Wire.UnsafeEmpties | roundtripper.go:214-248 | a POST, PUT, DELETE or PATCH answered 200 to 399 takes the list of its URL key away; any other request that is no GET, or is one with Range, leaves the whole store as it is |
| Wire.OtherHostSpared | internal/cacheinvalidator.go:62-86 | no such request touches a URL key, or an entry on its list, to which its locations lead only at hosts that differ from the target's by more than the case of letters |
| Service.BoundedStaleness | roundtripper.go:299-339 | unless the request says only-if-cached or max-age=0, a hit is younger than lifetime plus max-stale and a stale-while-revalidate reply younger than lifetime plus that window, as exact sums |
| Service.HitTrulyFresh | internal/freshness.go:66-86 | for every Age field, Date and clock: a hit obeys the same bound on the exact age of RFC 9111 where the sums fit in 64 bits, and, unless the Age field underflows or the bound itself is out of range, only there |
| Service.SwrTrulyBounded | roundtripper.go:333-339 | the same of a reply given while revalidating, at the reading that decides, when the readings of the step agree |
| Cases.AncientServed | internal/freshness.go:75-85 | a response with a Date 300 years back and max-age=60 is a hit a second after receipt |
| Cases.AncientInWindow | roundtripper.go:333-339 | with a window of 9223372036 seconds it is served while revalidating, beyond lifetime and window |
| Service.StaleIfErrorBound | internal/validationresponsehandler.go:100-111 | an entry served on an error status, for a request without max-age=0, is itself at most lifetime plus the error response's stale-if-error old |
| Service.StaleIfErrorTrulyBounded | internal/cacheabilityevaluator.go:104-126 | the same bound on the exact age, where the sums fit and, with the exceptions above, only there |
| Cases.AncientOnError | internal/cacheabilityevaluator.go:104-126 | the response with the ancient Date is served on a 503 with stale-if-error=60 |
| Service.StaleIfErrorIff | internal/cacheabilityevaluator.go:104-126 | once the origin was asked, an error status is answered from the store if and only if the entry's age is within that sum and, should the sum wrap, within the wrapped one |
| Service.StaleIfErrorMaxAgeZero | internal/freshness.go:120-126 | with request max-age=0 the entry is served on an error status if and only if the time since the verdict is within stale-if-error, at any age, and the Age shown counts from the verdict |
| Service.MaxAgeZeroIff | internal/freshness.go:120-126 | exactly when a request with max-age=0 is answered without contact |
| Cases.MaxAgeZeroInWindow | roundtripper.go:333-339 | an entry of any age with a window of 60 seconds, and max-age=0, for which that happens |
| Cases.MaxAgeZeroServed | internal/freshness.go:120-126 | an entry of any age is served to max-age=0 on a 503 with stale-if-error=60 |
| Service.RevalidationForced | roundtripper.go:305-320 | a stale must-revalidate entry is never returned without contact, one with an unqualified no-cache only when fresh and immutable |
| Service.RequestNoCacheIff | roundtripper.go:317-339 | exactly when a request with no-cache is answered without contact |
| Cases.NoCacheServed | roundtripper.go:320-339 | an entry in a window of 60 seconds and a no-cache request for which that happens |
| Service.MustRevalidateIff | internal/freshness.go:164-177 | for every request, exactly when an entry with must-revalidate is answered without contact past its lifetime |
| Cases.MustRevalidateServed | internal/freshness.go:164-177 | a must-revalidate entry and a max-stale request for which that happens |
| Service.OnlyIfCachedIff | roundtripper.go:305-331 | a request with only-if-cached reaches the origin exactly when the entry is stale with must-revalidate, or has an unqualified no-cache, and is not served as fresh and immutable; otherwise it gets the entry as a hit at any staleness, or the 504 when there is none |
| Cases.OnlyIfCachedAsks | roundtripper.go:317-320 | a must-revalidate entry for which it does |
| Cases.OnlyIfCachedAnyAge | roundtripper.go:322-331 | an entry of any age it is served |
| Service.RouteMonotone | roundtripper.go:305-339 | one more no-cache, or must-revalidate of the entry, never takes the origin out of the answer; one more only-if-cached, or immutable, never brings it in |
| Service.RequestMonotone | roundtripper.go:299-339 | the same for a whole request that gains no-cache or only-if-cached |
| Service.StatusTruthful | roundtripper.go:180-289 | every reply shows a status that is true: HIT, STALE and REVALIDATED carry the selected entry's status and body, REVALIDATED only after a 304 in the step, MISS and BYPASS this step's upstream reply or the 504; X-From-Cache is set exactly for the first three unless upstream sets it |
| Wire.StatusWritten | roundtripper.go:180-289 | the text of the status line: BYPASS for other requests and for the 504 of only-if-cached, MISS without an entry, HIT or STALE without an exchange, REVALIDATED after a 304, STALE after an exchange only for 500, 502, 503 or 504 |
| Service.ValidationTruthful | internal/validationresponsehandler.go:73-132 | the four endings of a validation and what each carries |
| Service.ForeignPrecondition | internal/validationresponsehandler.go:78-93 | where the stored reply lacks the validator of the client's own precondition, that one is sent, and a 304 still returns and freshens the stored reply as revalidated |
| Cases.ForeignAnswered | helpers.go:47-63 | an entry without ETag and a request with If-None-Match for which that happens |
| Service.ServedFromOwnKey | roundtripper.go:360-412 | in every run a reply from the store carries an earlier admitted upstream reply for its own URL key |
| Service.NothingOldServed | roundtripper.go:214-248 | no resurrection as the client sees it: later replies from the store carry replies received after the unsafe request |
| Service.StoredStatus | internal/cacheabilityevaluator.go:32-62 | in every run no stored reply is partial, interim or beyond 599, and none is a 304 unless a miss admitted one |
| Service.ServedPointwise | roundtripper.go:368-382 | a hit shows every stored field but the withheld ones, the computed Age and the stamps |
| Wire.AgeLine | internal/helpers.go:45-48 | the Age line of a hit is a decimal number without leading zeros that reads back as the computed age in whole seconds, and as the exact age where that fits |
| Wire.AgeFieldReads | internal/freshness.go:73-76 | the Age field received counts for the number its digits spell, up to the 64-bit limits, and for 0 when it is absent or anything else |
| Digits.ParseIntReads | internal/ccdirectives.go:51-61 | digits, with or without a sign, are read by place, and out of range exactly beyond 64 bits |
| Digits.ParseIntRejects | internal/ccdirectives.go:51-61 | no digits, or another byte after digits in range, is malformed |
| Digits.DecimalRoundTrip | internal/helpers.go:45-48 | a printed number up to 9223372036854775807 reads back as itself |
| Digits.DecimalReads | internal/normalization.go:332-338 | the digits printed spell the number by place, none of them a leading zero |
| Service.WithheldExactly | roundtripper.go:302-303 | a field list printed in no-cache="..." comes back as exactly the header names withheld |
| Wire.WithheldToken | internal/ccdirectives.go:210-216 | an unquoted argument withholds that one field |
| Service.WithheldOnHitOnly | roundtripper.go:360-412 | what each status shows of a stored field: a hit all but the withheld ones, a stale reply all, a revalidated one what the 304 leaves |
| Service.StaleAndJobShows | roundtripper.go:387-412 | a reply given while revalidating has every stored field, the stored Age line included |
| Cases.WithheldShown | roundtripper.go:387-412 | an entry whose listed Set-Cookie is shown |
| Service.StoredIsFound | internal/responsestorerer.go:78-98 | right after a first store the same request finds that entry, if and only if its Vary is not exactly "*" |
| Service.FreshRepeatIsHit | roundtripper.go:299-331 | a stored reply is served to the same request, without contact, for as long as it is fresh |
| Wire.ServedUntilExpires | internal/freshness.go:138-154 | from the empty cache: a reply with Expires and no Cache-Control line answers its own request as a hit exactly until that time |
| Wire.ServedByHeuristic | internal/freshness.go:150-153 | with Last-Modified alone: for a tenth of the time since, to half a second |
| Wire.ServedForMaxAge | internal/freshness.go:133-154 | with max-age alone: for exactly that many seconds |
| Wire.RequestMaxAge | internal/freshness.go:156-158 | a request line max-age=n makes an entry a hit exactly while its age is below its lifetime and below n seconds |
| Wire.RequestMinFresh | internal/freshness.go:159-162 | min-fresh=n, exactly while n seconds of the lifetime are left |
| Wire.RequestMaxStale | internal/freshness.go:164-177 | max-stale=n, exactly while the age is below the lifetime and n seconds, where that sum is in range |
| Wire.StoredHeader | internal/helpers.go:52-80 | what is stored of a header: every field with all its lines, but the fixed hop-by-hop names and those its own first Connection line names |
| Wire.NoStoreNeverKept | internal/cacheabilityevaluator.go:48-51 | in every run no lineage starts at an exchange whose reply or request says no-store on its first Cache-Control line |
| Frame.StoresExactly | roundtripper.go:271-279 | an understood request writes to the store exactly when its reply is REVALIDATED, or is MISS and the upstream reply may be stored |
| Frame.GetFrame | internal/responsestorerer.go:76-98 | an understood request leaves every key of every other URL as it was |
| Frame.BackgroundFrame | roundtripper.go:414-456 | so does a background revalidation |
| Frame.OtherFrame | roundtripper.go:214-248 | any other request changes the store only when unsafe with a 2xx or 3xx reply, and then by losing exactly the deletable keys of the trail |
| Frame.UnreadableIsAbsent | roundtripper.go:187-211 | a key whose read fails counts as an absent one, list or entry, in everything a request decides |
| Wire.UpstreamShows | internal/helpers.go:52-80 | a client sees every field of upstream's reply with all its lines, but for those of one connection when the reply is stored |
| Wire.ValidationShows | internal/validationresponsehandler.go:112-132 | the same after a validation that ends in upstream's reply |
| Transport.Transport.RoundTrip | roundtripper.go:180-212 | the call is one foreground step of the protocol, returns its reply, and keeps provenance |
| Transport.Transport.Answer | roundtripper.go:187-211 | look up, sort in place, match, read the entry, and dispatch |
| Transport.Transport.HandleUnrecognizedMethod | roundtripper.go:214-248 | forwards the request and, for an unsafe one with 2xx or 3xx, deletes exactly the trail |
| Transport.Transport.HandleCacheMiss | roundtripper.go:250-289 | the 504, the upstream error, or the upstream reply, stored when admitted |
| Transport.Transport.HandleCacheHit | roundtripper.go:292-358 | serve, serve stale and start a job, or revalidate |
| Transport.Transport.ServeFromCache | roundtripper.go:360-383 | the loop over the no-cache fields withholds exactly the set of their canonical names |
| Transport.Transport.HandleStaleWhileRevalidate | roundtripper.go:387-412 | the stale reply now, and a job with the conditional request and the stamped entry |
| Transport.Transport.BackgroundRevalidate | roundtripper.go:414-456 | running a job is one background step, takes it off the pending ones, and keeps provenance |
| Transport.Transport.HandleValidationResponse | internal/validationresponsehandler.go:73-132 | merge and store on 304, stale on error, store, invalidate or bypass |
| Transport.Transport.StoreResponse | internal/responsestorerer.go:52-99 | the two writes, entry then list, and the reply without hop-by-hop fields |
| Transport.Transport.InvalidateCache | internal/cacheinvalidator.go:40-58 | the calls issued are the first occurrences of the trail, in its order, each key once; with the refs read from the store, IDs go before their URL key; the store loses exactly those keys |
| Http.MergePointwise | internal/helpers.go:85-94 | a 304 field wins unless hop-by-hop or Content-Length, every other field is untouched |
| Http.MergeLaws | internal/helpers.go:85-94 | merging is idempotent, and successive merges are one merge of the overlaid updates |
| Http.RemoveHopByHopHeaders | internal/helpers.go:52-80 | deleting the fields one by one, in any order, leaves the end-to-end header |
| Http.MergeResponseHeaders | internal/helpers.go:85-94 | copying the fields one by one, in any order, gives the merge |
| Http.ConditionalCarries | helpers.go:47-63 | the validators of the stored response replace the client's own, and nothing else |
| Http.OnlyStoredPreconditionsIff | helpers.go:47-63 | only the stored response's preconditions are sent if and only if, for each of the two, it has the validator or the client sent none |
| Http.FixDateValid | internal/clock.go:39-45 | a repaired Date parses and is not zero, a good one is left alone |
| Http.CanStoreCases | internal/cacheabilityevaluator.go:32-62 | which replies are stored, by status and directives, both ways |
| Directives.AdmittedIff | internal/cacheabilityevaluator.go:32-62 | the same in the names no-store, must-understand, public and max-age on the printed first lines of reply and request |
| Directives.FlagsRead | internal/ccdirectives.go:149-241 | of any printed first line, each directive without a value is on exactly when its name is there |
| Directives.SecondsRead | internal/ccdirectives.go:107-112 | a directive with seconds, up to 9223372036, gives that many nanoseconds, read from its last occurrence |
| Directives.AbsentRead | internal/ccdirectives.go:131-147 | without its name a directive gives none, and max-stale without an argument accepts any age |
| Directives.MaxStaleRejects | internal/ccdirectives.go:51-61 | max-stale with an argument that is no number accepts nothing stale |
| Directives.NoCacheArgument | internal/ccdirectives.go:210-216 | no-cache is unqualified without an argument, and restricted to the one field an unquoted one names |
| Http.SameOriginLaws | internal/helpers.go:29-41 | same origin is an equivalence, and an absent port is the default one of its scheme |
| Http.SameOriginIff | internal/helpers.go:29-41 | same origin means schemes and hosts that agree up to the case of letters at every position, and the same port in use |
| Http.CanonicalKeyIff | internal/helpers.go:163-175 | two field names have one canonical form exactly when they differ in the case of letters at most |
| Http.CanonicalKeyLeaves | internal/helpers.go:163-175 | a name with any other byte stays as it is |
| Http.OnlyFirstLine | internal/ccdirectives.go:181-187 | whatever later Cache-Control lines say, a reply has the same directives and is stored or not as without them |
| Http.LaterNoStoreIgnored | internal/ccdirectives.go:181-187 | a 200 with no-store on its second line may be stored |
| Freshness.StaleIffThreshold | internal/freshness.go:156-177 | for a non-negative age, stale means at least one fixed threshold |
| Freshness.ThresholdBound | internal/freshness.go:173-177 | the wrap-around guard never accepts more than the exact sum |
| Freshness.ThresholdMonotone | internal/freshness.go:156-177 | exactly when a request max-age raises the threshold and a larger max-stale lowers it, over all values; min-fresh never raises it |
| Freshness.RequestMaxAgeCanRaiseThreshold | internal/freshness.go:156-177 | an input for the first |
| Freshness.MaxStaleCanLowerThreshold | internal/freshness.go:164-177 | an input for the second, and an age it refuses |
| Freshness.AgeExact | internal/freshness.go:68-86 | for every Age field, Date and clock: the computed age is at least that of section 4.2.3 of RFC 9111 if and only if the sums fit in 64 bits, and equal to it if and only if, besides, a negative field does not wrap above the exact age at receipt |
| Freshness.AgeExactIff | internal/freshness.go:68-86 | unless the Age field underflows, equal if and only if the exact age fits |
| Freshness.AgeOverflows | internal/freshness.go:73-78 | Age 9223372037: computed 0, exact out of range |
| Freshness.AgeUnderflows | internal/freshness.go:73-78 | Age -9223372037: computed above 9223372036 seconds, exact 0 |
| Freshness.AncientDate | internal/freshness.go:75-85 | a Date 300 years before receipt: the greatest age at receipt, a negative one a second later |
| Cases.OverflowServed | internal/freshness.go:73-85 | a response with that Age and max-age=60 is a hit |
| Freshness.AgeAtLeastApparent | internal/freshness.go:73-85 | no Age field makes the age less than apparent age plus resident time, unless the sum overflows; then it is less, and negative or the greatest there is |
| Freshness.AgeGrows | internal/freshness.go:81-85 | after receipt the age grows exactly with the clock if and only if it does not overflow in between and the time since receipt fits |
| Freshness.AgeHeaderIndependentOfReading | internal/helpers.go:45-48 | computing at one reading and writing Age at a later one gives what the later one alone would, whatever wraps |
| Freshness.StaysStale | internal/freshness.go:115-180 | a stale response is stale at a later reading if and only if the request has max-age=0, the sum behind its age still fits, or its wrapped age falls short of min-fresh |
| Freshness.StaleIffSum | internal/freshness.go:156-180 | the verdict at any reading, by that sum |
| Cases.AncientTurnsFresh | internal/freshness.go:75-85 | a response stale at receipt and fresh a second later |
| Freshness.MaxAgeWins | internal/freshness.go:133-154 | max-age decides the lifetime if and only if it is positive, or Expires is not later than Date and the heuristic is ruled out by an Expires field, by the status without public, or by a Last-Modified that is missing or less than five seconds before |
| Freshness.LifetimeRules | internal/freshness.go:133-158 | for every entry: a positive max-age is the lifetime; otherwise a later Expires gives the time from Date to it; otherwise, without Expires and with a status that allows it or public, a whole number of seconds within half a second of a tenth of the time since Last-Modified; otherwise 0; and a positive request max-age limits it |
| Freshness.ExpiresIgnoredIff | internal/freshness.go:138-149 | a later and a malformed Expires give the same lifetime if and only if max-age is positive; otherwise the later one lasts until Expires and the malformed one not at all |
| Cases.ExpiresServed | internal/freshness.go:138-149 | max-age=0 and an Expires 60 seconds later: a hit |
| Cases.HeuristicServed | internal/freshness.go:150-153 | max-age=0 and a Last-Modified 1000 seconds before, no Expires: a hit with a lifetime of 100 seconds |
| Freshness.HeuristicRounds | internal/freshness.go:57-64 | the heuristic is a whole number of seconds within half a second of a tenth of the time since Last-Modified, which counts up to 292 years |
| Freshness.StaleOnError | internal/cacheabilityevaluator.go:104-126 | the early-return loop finds a source that allows the age if and only if there is one |
| Vary.VaryHeadersMatch | internal/varymatcher.go:38-70 | the slice is permuted in place into sorted order; a match is found if and only if there is one, it matches, and no matching ref ranks before it |
| Vary.MatchMeansAgreement | internal/varymatcher.go:72-89 | a ref matches exactly the requests that agree with its own on every nominated field |
| Vary.CompareOrder | internal/varymatcher.go:39-61 | the comparator is a strict weak order |
| Vary.CompareIsRank | internal/varymatcher.go:43-60 | it ranks by class (some Vary, none, "*") and then by earliest Date |
| Vary.EarliestPreferred | internal/varymatcher.go:59-60 | of matching refs of one class the earliest is selected |
| Vary.MostRecentIff | internal/varymatcher.go:38-70 | the ref selected is the most recent match if and only if every match of the least class is as recent as any match |
| Variants.EarlierServed | internal/varymatcher.go:38-70 | a run from the empty cache in which the earlier of two matching variants is found |
| Vary.VaryKeyInjective | internal/normalization.go:332-338 | an entry key determines its URL key |
| Vary.NormalizeVaryHeader | internal/normalization.go:262-277 | the loop collects exactly the map of nominated fields |
| HeaderValues.OrderDoesNotCount | internal/normalization.go:104-141 | list order does not count in the quality-value, the content-coding and the order-insensitive fields |
| HeaderValues.AliasesDoNotCount | internal/normalization.go:251-260 | in the content-coding fields neither order nor the choice of x-gzip or x-compress counts |
| Encodings.SplitReplaced | internal/normalization.go:251-260 | replacing aliases in the whole value replaces them element by element |
| Encodings.AliasNames | internal/normalization.go:251-254 | x-gzip becomes gzip, x-compress becomes compress |
| HeaderValues.PermutedRequestMatches | internal/normalization.go:104-141 | requests whose lists are permutations match the same refs |
| HeaderValues.PlainFormIff | internal/normalization.go:104-141 | in Cache-Control, Connection, Content-Language, Expect, Pragma, Upgrade, Vary and Via two values of clean elements have one normal form exactly when they list the same elements, each as often |
| HeaderValues.CodingFormIff | internal/normalization.go:104-141 | in Content-Encoding likewise, with the aliases replaced |
| HeaderValues.ZeroNotAccepted | internal/normalization.go:160-237 | in Accept, Accept-Charset, Accept-Language and Accept-Encoding an element of quality 0 does not count |
| HeaderValues.CaseFormIff | internal/normalization.go:104-141 | in Content-Type, Content-Disposition, Host, Referer, User-Agent, Server and Origin two values have one normal form exactly when they differ in the case of letters at most |
| HeaderValues.CredentialsFormIff | internal/normalization.go:104-141 | in Authorization the scheme ignores case, the credentials and a value without a blank do not |
| HeaderValues.TimeForm | internal/normalization.go:104-141 | in the fields that hold a time only blanks around it go |
| HeaderValues.OtherFieldForm | internal/normalization.go:104-141 | every other field is compared as it is |
| HeaderValues.TeNotNormalized | internal/normalization.go:49-57 | the canonical field Te is compared as it is: two values have one normal form only when they are the same |
| HeaderValues.TeOrderCounts | internal/normalization.go:49-57 | the same codings in two orders differ there |
| Normalization.QValuesCanonical | internal/normalization.go:160-237 | permuting the elements never changes the normal form, for any two correct sorts |
| Normalization.CompareTotal | internal/normalization.go:205-213 | the five-key comparator is a total order whose ties are identical records |
| Normalization.PairsOnce | internal/normalization.go:215-218 | each (quality, main value) pair survives at most once |
| Normalization.MainsOnceIff | internal/normalization.go:205-218 | each main value of a field survives once if and only if, among the records read from it, none ranks between two of another main value |
| Normalization.MainKeptTwice | internal/normalization.go:160-237 | `a, b;q=0.5, a;q=0.3` normalizes to itself, without the blanks, and keeps `a` twice |
| Normalization.CompactFirsts | internal/normalization.go:215-218 | compaction keeps exactly the first element of each run of one main value, in order |
| Normalization.MoreSpecificFirst | internal/normalization.go:205-213 | of equal qualities the value with fewer wildcards, and then the one with more parameters, comes first |
| Normalization.ReadsAnyQ | internal/normalization.go:178-196 | `main;q=digits`, with either case of q, reads as that quality brought into the range from 0.001 to 1 |
| Normalization.ZeroDropped | internal/normalization.go:178-196 | an element of quality 0 is dropped |
| Normalization.ParamKept | internal/normalization.go:160-237 | any other parameter is kept and printed again |
| Normalization.ReadsPrinted | internal/normalization.go:160-237 | a printed record reads back as itself: main value, parameters in order, quality |
| Normalization.ParamBlanks | internal/normalization.go:178-196 | blanks around a parameter do not count, wherever it stands |
| Normalization.ListCanonical | internal/normalization.go:144-147 | permuting a plain list never changes its normal form |
| Normalization.ListFormIff | internal/normalization.go:144-147 | the normal form of a plain list splits into its sorted elements, so two lists share one exactly when they are permutations |
| Normalization.NormalizeOrderInsensitiveWithQValues | internal/normalization.go:160-237 | the loops compute that normal form |
| VaryHash.MakeVaryHash | internal/normalization.go:340-350 | the hash is that of the pairs in name order, whatever the iteration order of the map |
| VaryHash.TextUnique | internal/normalization.go:342-344 | there is only one listing of the names in byte order, so the text is well defined |
| Ordering.BytesDecide | internal/normalization.go:342-344 | byte order: the first byte that differs decides, and a prefix comes first |
| VaryHash.SeparatesIff | internal/normalization.go:340-350 | over arbitrary values, the text of a given list of names determines the values if and only if there is at most one name |
| VaryHash.LowerSeparates | internal/normalization.go:340-350 | the text determines the values where every name but the first has a capital and its value none |
| HeaderValues.NoCapitals | internal/normalization.go:125-126 | the fields compared without case have such values |
| Variants.WrongVariantServed | internal/normalization.go:340-350 | a run from the empty cache in which two requests that differ in a nominated field share a response ID, and the first is served the second's reply |
| VaryHash.AmbiguousText | internal/normalization.go:345-348 | two different maps with the same key under any hash |
| Csv.TrimmedCSV | internal/helpers.go:125-161 | the byte loop yields the parts of the splitter |
| Csv.SplitJoin | internal/helpers.go:123-161 | splitting gives back any list of elements printed with ", " |
| Csv.SplitLines | internal/helpers.go:123-161 | lines that leave no quote open, joined with a comma, split into the elements of each in order |
| Csv.TrimPadded | internal/helpers.go:125-161 | blanks, tabs and line ends around an element go and nothing else |
| QuotedString.ParseQuotedStringE | internal/quotedstring.go:41-76 | the index loop computes the text or the first error |
| QuotedString.ParsePrint | internal/quotedstring.go:23-31 | every byte string survives quoting and unquoting |
| QuotedString.ReadVerbatim | internal/quotedstring.go:23-76 | text between quotes is read as it is, and a control character or a bare quote in it makes the argument count as it was written |
| CacheControl.ParseDirectives | internal/ccdirectives.go:81-105 | the loop collects exactly the directive map |
| CacheControl.PrintParse | internal/ccdirectives.go:81-99 | any printed list of token directives with optional token or quoted arguments parses back to the same pairs in order |
| CacheControl.LookupPrinted | internal/ccdirectives.go:103-105 | the map holds the last argument of each printed name |
| CacheControl.NoCacheFieldsRoundTrip | internal/ccdirectives.go:210-216 | a field list printed in no-cache="..." comes back as the listed names |
| CacheControl.DeltaSecondsExact | internal/ccdirectives.go:51-61 | delta-seconds convert exactly up to 9223372036 and not beyond |
| CacheControl.DeltaSecondsWraps | internal/ccdirectives.go:60 | the next value gives a negative duration |
| PercentEncoding.NormalizePercentEncoding | pkg/urlkey/urlkey.go:89-109 | the byte loop computes the normal form |
| PercentEncoding.IdempotentIff | pkg/urlkey/urlkey.go:86-109 | for every string: normalizing twice is normalizing once if and only if no stray percent sign comes to stand before two hex digits that spell an unreserved byte or have a lower-case letter |
| PercentEncoding.Idempotent | pkg/urlkey/urlkey.go:86-109 | where every percent sign starts an escape normalization is idempotent, and every percent sign of the result starts one |
| PercentEncoding.SameKeyIff | pkg/urlkey/urlkey.go:86-109 | any two strings get the same key if and only if they agree up to escaped unreserved bytes, hex case, and stray percent signs before two upper-case digits of a reserved byte |
| PercentEncoding.WellFormedKeyIff | pkg/urlkey/urlkey.go:86-109 | without stray percent signs, up to the first two |
| PercentEncoding.SharedKey | pkg/urlkey/urlkey.go:86-109 | `%%325` and `%25`, which mean different texts, share a key |
| PercentEncoding.DecodedPreservedIff | pkg/urlkey/urlkey.go:86-109 | any string keeps its decoded bytes if and only if no Latin-1 letter outside ASCII is escaped and no stray percent sign comes to stand before two hex digits |
| PercentEncoding.Latin1Rewritten | pkg/urlkey/urlkey.go:95-101 | `%E9` becomes two bytes |
| PercentEncoding.EscapeBecomes | pkg/urlkey/urlkey.go:89-109 | an escaped unreserved character of RFC 3986 stands for itself, a Latin-1 letter becomes its two UTF-8 bytes, every other byte stays escaped |
| PercentEncoding.KeepsHashFree | pkg/urlkey/urlkey.go:89-109 | no string gains a "#" |
| PercentEncoding.StrayNotIdempotent | pkg/urlkey/urlkey.go:93-106 | `%%341`, for which it is not |
| FileNames.RoundTrip | store/fscache/filenamer.go:48-90 | every byte string is read back from its file name |
| FileNames.NamesDistinct | store/fscache/filenamer.go:38-61 | names are injective; components are at most 48 characters when fragmented, 255 otherwise |
| FileNames.ObstructsIff | store/fscache/filenamer.go:48-61 | one key's file is on the way to another's exactly when it is a proper prefix, the other has at least 192 bytes, and it has 36 bytes or a multiple of 36 from 216 on |
| FileNames.FileInTheWay | store/fscache/filenamer.go:48-61 | a key of 36 bytes and one of 192 for which it is |
| FileNames.FragmentFileName | store/fscache/filenamer.go:48-61 | the loop cuts the encoding into the fragments |

## Left out

- Concurrency inside a step: foreground requests are atomic, and the header that a stale reply shares with its background job is the stamped one.
- Backend internals: file I/O, timeouts, encryption, the memory backend, the registry and the maintenance API. A backend is a map whose reads, writes and deletions may fail by key.
- Wire and JSON codecs of entries and refs: taken as faithful.
- URL parsing, dot segments, host and port splitting, and comparison of schemes and hosts outside ASCII: URL keys and resolved locations are given.
- Normalization.QValuesCanonical: quality values are exact numbers and never NaN; parsing and printing of floats are parameters.
- Freshness.AgeHeaderIndependentOfReading: whole seconds are exact here, where the code goes through a float that can round up for ages of more than a year; the heuristic tenth of a duration is exact too.
- Relations between clock readings: those of one step are unrelated unless a lemma says otherwise, and monotonic clock readings are not told apart from wall-clock ones.
- UTC-formatted Expires values, which an environment variable admits.
- Whitespace outside ASCII in `strings.TrimSpace` and letters outside ASCII in `strings.ToLower`.
- `filepath.Join` also cleans its result; with these components, none empty or made of dots, there is nothing to clean.
- Logging, tracing, options and the example program.
