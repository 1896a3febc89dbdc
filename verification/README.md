# Verified models of the provenance service

Dafny models of the parts of the repository that carry state, arithmetic or encodings with real
obligations, and proofs of what they are for. `dafny verify dfyconfig.toml` checks everything. The
project follows the program's structure:

| part | modules |
|---|---|
| rate limiter over an optimistic key-value store | `RateLimitMachine`, `RateLimitAdmission`, `RateLimiter` |
| leaf-certificate OCSP responder and its response cache | `LruCache`, `OcspMachine`, `OcspFreshness`, `OcspReplies`, `OcspCache`, `OcspResponder` |
| dedup identity of an upload | `CanonicalJson`, `CanonicalForms`, `QuotedBars`, `ActionEntries`, `DocumentOrder`, `ContentIdentity` |
| search for generative-AI declarations | `ActionEntries`, `GenerativeAi`, `SearchOrder` |
| Android attestation evidence | `TaggedFields`, `CivilCalendar`, `AndroidEvidence` |
| Android attestation revocation list | `RevocationList`, `RevocationLoader` |
| certificate serials and PEM | `CertificateSerial`, `CertificatePem` |
| XMP GPS coordinates, from phone to verifier | `GpsCoordinate`, `XmpGrammar` |
| recorded ingredient failures | `RecordedResults`, `RecordedCodes` |
| timestamp-authority names | `TsaNames`, `TsaReading` |
| intermediate-versus-KMS check | `KmsCheck` |
| numerals, text, sequences | `Numerals`, `Texts`, `Collections`, `Arithmetic`, `Options` |

## How it is modelled

**Protocols.** The rate limiter, the responder, the revocation loader and the KMS check run
concurrently with other requests. Each is a state machine with a total function `Apply`: a step that
is not enabled changes nothing, so a sequence of steps is an arbitrary schedule and a statement about
all sequences covers every interleaving. The code of the first three is written as methods that hand
control to arbitrary foreign steps at every `await`, and is proved to be one participant of the machine
(`RateLimiter.EnforceRateLimit`, `OcspResponder.Responder.Respond`, `RevocationLoader.Loader.Load`).
The KMS check returns its promise at once, so its code is two methods, a call up to the promise it
returns and the rest of a flight once its key has arrived (`KmsCheck.CachedIntermediateCheck`); each is
proved to be one step, and the steps interleave freely.

**Loops and in-place updates** are methods proved against functions on values; the theorems are about
those functions. What such a function reads or writes is in turn said without it: constants, texts and
formats are spelled out where they are promised, and each reader has a statement of what it reads.

**What surrounds the code** enters as parameters: the clock and the ledger as steps, the outcome of
fetches, signatures and parses as arguments, already-parsed manifests, attestation records and
reports as datatypes.

## Where code and documentation differ

- `ocsp-leaf/main.ts:203-205` says that a cached response is never served past its `nextUpdate`. The
  cache counts its lifetime from the moment of storing, while `nextUpdate` counts from the build time
  cut to whole seconds. `OcspFreshness.ServedPastNextUpdate` is a schedule that serves an answer 499 ms
  too late with no store delay at all; `NeverPastNextUpdateIff` gives the exact condition (stored at
  most one millisecond after the whole second stated as `thisUpdate`), and `OverrunBound` the true bound.
- `ca/register-signing-key/index.ts:162-167` says that transient and permanent errors drop the cached
  promise so that the next request retries. Four failures do. Extracting the key of the parsed
  certificate stands outside every handler: should it throw, the rejection would be served from then on
  (`KmsCheck.NextCallRefetchesIff`, `KmsCheck.SettledForGood`). The function re-encodes a key that has
  already been parsed (`ca/_shared/attestation/pki.ts:479-482`), and nothing in the repository shows that
  it can throw, so this is a condition and not an observed failure.
- The identity in `trust-core/src/policies/content-hash.ts:82-90` separates label and extent by a bar.
  It is injective for labels in which no bar is followed by `c2pa.trimmed:`, so for all labels without a
  bar. For labels of any form, `ContentIdentity.IdentityCollidesIff` says exactly when two different
  uploads collide: one is untrimmed and its label literally is the other's whole identity.
  `BarCollision` builds two such uploads.
- The revocation loader shares one copy among overlapping calls but not one fetch.
  `RevocationLoader.SpacedIffAlone` says, for every run, that a fetch made with a usable copy keeps its gap
  (up to the five-second time-out) exactly when no fetch was in flight as it began, and
  `AlwaysSpacedIffAlone` when full gaps are kept at every moment. `OverlapFetchesTwice` and
  `LateWriterCostsTimeout` are runs from the start in which they are not.
- The five seconds of slack in the limiter's time-to-live are exactly enough: `RateLimitMachine.BucketCap`
  needs each bump to be committed within them, and `RateLimitAdmission.SlackIsTight` breaks the cap with
  one bump committed at the very next moment.

## Assumptions

- Clocks do not run backwards, and a fetch of the revocation list has ended when its abort timer fires;
  `ReturnedIsFresh` holds for any time-out, so for timers that fire late as well.
- `BucketCap` and `AdmissionsPerSpan` are stated for any `max` that bounds the maxima callers use for
  the bucket's window length, because a key does not record its maximum. A span of admissions is
  measured by the store's clock at the moment each call begins.
- A certificate that the ledger revokes stays revoked.
- JSON numbers stand for their numerals, and a string is a sequence of UTF-16 code units.
- GPS values are exact reals; printing rounds to the nearest with ties to the even digit.
- Integers that the sources hold in JavaScript numbers stay within their exact range.

## Model

| member | source | states |
|---|---|---|
| RateLimitMachine.TtlCoversBucket | ca/_shared/rate_limit.ts:81 | an entry written by a call whose clock reading lies in a bucket cannot be dropped before five seconds past the bucket's end |
| RateLimitMachine.StartReadsClock | ca/_shared/rate_limit.ts:77 | a call's own clock reading is the second of the store's clock in which it begins |
| RateLimitMachine.WellFormedRun | ca/_shared/rate_limit.ts:42-60 | in every interleaving a read in flight still knows the entry's count when the version matches, and the version matches when the key saw no event |
| RateLimitMachine.CappedRun | ca/_shared/rate_limit.ts:42-60 | until five seconds past its end a bucket's entry counts every timely bump, and never more than the maximum |
| RateLimitMachine.BucketCap | ca/_shared/rate_limit.ts:42-87 | at most `max` bumps committed within the slack in every interleaving and expiry; without the proviso at most `max` more per dropped entry |
| RateLimitAdmission.AdmissionsPerSpan | ca/_shared/rate_limit.ts:62-87 | at most `2 * max` of the calls that begin in any span of `windowSec * 1000` milliseconds are admitted |
| RateLimitAdmission.PaidForRun | ca/_shared/rate_limit.ts:77-86 | in every interleaving a call has bumped the bucket of every window it is past |
| RateLimitAdmission.DenialJustified | ca/_shared/rate_limit.ts:42-60 | a denied call met the bucket of the second in which it began already bumped `max` times, or lost its fourth race to the fourth change of that very bucket; the retry hint points at the next bucket |
| RateLimitAdmission.RetryIsNextBucket | ca/_shared/rate_limit.ts:83 | `now + retryAfter` is the first second of the next bucket, and every earlier second is in this one |
| RateLimitAdmission.SlackIsTight | ca/_shared/rate_limit.ts:81 | for every window length a schedule whose one late bump commits exactly at the deadline exceeds the cap |
| RateLimiter.AwaitGet | ca/_shared/rate_limit.ts:49-51 | reading a bucket while others run is their schedule followed by one read step |
| RateLimiter.AwaitCommit | ca/_shared/rate_limit.ts:52-57 | the versioned compare-and-set is their schedule followed by one commit step, which succeeds exactly when the version is the one read |
| RateLimiter.BumpBucket | ca/_shared/rate_limit.ts:42-60 | the four-attempt loop is a schedule of the protocol that moves this call one window on, or denies it |
| RateLimiter.EnforceRateLimit | ca/_shared/rate_limit.ts:62-87 | a guarded call is a schedule of the protocol that reads the clock after the store has opened and ends in the phase matching its outcome; an admitted call has bumped every window; without a store it is waved through |
| LruCache.LruCache.Get | ocsp-leaf/main.ts:212-222 | the hit, the expiry and the re-insertion equal the specification on values |
| LruCache.LruCache.Set | ocsp-leaf/main.ts:223-229 | making room and storing equal the specification on values |
| LruCache.CacheSound | ocsp-leaf/main.ts:209-231 | after any operations: a sub-map of the last writes, at most `maxEntries` (≥ 1) entries, and a touched key is missing only by expiry or after `maxEntries - 1` distinct others were touched since |
| LruCache.OldestWaitedForAll | ocsp-leaf/main.ts:224-227 | every other cached key was touched since the last touch of the key that is evicted, so at least size − 1 keys were |
| LruCache.HitIsLastWrite | ocsp-leaf/main.ts:212-222 | a hit is the last value written for that key, before its expiry |
| LruCache.RecentKeyIsHit | ocsp-leaf/main.ts:209-231 | a live key with fewer than `maxEntries - 1` others touched since is a hit |
| OcspMachine.CacheKeyInjective | ocsp-leaf/responder.ts:177-183 | different CertIDs never share a cache key |
| OcspMachine.SoundRun | ocsp-leaf/responder.ts:208-253 | every schedule keeps every cached and served answer tied to its CertID and to a ledger reading |
| OcspFreshness.ServedIsRecent | ocsp-leaf/responder.ts:208-253 | a served answer is for exactly the CertID asked, with a status the ledger held at its lookup, less than `validityMs` plus its own store delay ago |
| OcspFreshness.GoodEndsAfterRevocation | ocsp-leaf/responder.ts:167-171 | no `good` outlives a revocation by more than `validityMs` plus its own store delay, late writers included |
| OcspFreshness.OverrunBound | ocsp-leaf/responder.ts:109-111 | an answer is served past `nextUpdate` by less than its build-to-store delay plus one second |
| OcspFreshness.NeverPastNextUpdateIff | ocsp-leaf/main.ts:203-205 | a cached entry is never served past `nextUpdate` if and only if it was stored at most 1 ms after its whole-second `thisUpdate` |
| OcspFreshness.ServedPastNextUpdate | ocsp-leaf/main.ts:203-205 | a schedule that serves an answer 499 ms past its `nextUpdate` |
| OcspReplies.ReplyFits | ocsp-leaf/responder.ts:212-242 | over every schedule: exactly malformed requests are told so; a request is refused if it does not ask for one certificate of a configured issuer, and otherwise only when no ledger row was about its serial at the step that looked it up; an internal error follows a failure only |
| OcspReplies.ServedStatesLatestRow | ocsp-leaf/responder.ts:59-85 | a served answer is for a configured issuer, hash by hash, and states the last ledger row about its serial at lookup, revocations to the whole second |
| OcspReplies.StatusIs | ocsp-leaf/responder.ts:188-189 | a serial is unknown exactly when no row is about it, and else has the status of its last row |
| OcspCache.CacheRefines | ocsp-leaf/main.ts:209-231 | every schedule of requests does to the cache what a sequence of its own lookups and stores does |
| OcspCache.CacheBounded | ocsp-leaf/main.ts:223-229 | over every schedule the cache holds at most `maxEntries` (≥ 1) answers |
| OcspCache.RepeatAnsweredAtOnce | ocsp-leaf/main.ts:202-207 | a repeat query for a certificate put into the cache or used is answered at once with the last answer stored for it, while that is live and fewer than `maxEntries - 1` others were put in or used since |
| OcspResponder.SerialToDecimal | ocsp-leaf/responder.ts:51-57 | the hex detour gives the canonical decimal of the octets' value, `0` for none |
| OcspResponder.Responder.Respond | ocsp-leaf/responder.ts:208-253 | the pipeline with its three waits and two failures is a schedule of the protocol; an internal error needs a failure, and without one a certificate of a configured issuer with a ledger row gets a signed answer, revoked ones too |
| CanonicalJson.CanonicalUnique | trust-core/src/policies/content-hash.ts:38-53 | the text can be read as one value only, whatever follows it |
| CanonicalJson.CanonicalEqualIff | trust-core/src/policies/content-hash.ts:38-53 | equal texts exactly when the trees are equal up to key order and the collapse of null-like values |
| CanonicalForms.LiteralsSpelled | trust-core/src/policies/content-hash.ts:39-41 | null, undefined and non-finite numbers are written `null`, booleans by their names |
| CanonicalForms.EscapesSpelled | trust-core/src/policies/content-hash.ts:42 | the seven escapes with a letter of their own |
| CanonicalForms.UnitsSpelled | trust-core/src/policies/content-hash.ts:42 | every other unit stands for itself, or for four lower-case hex digits below a blank and without its partner |
| CanonicalForms.StringSpelled | trust-core/src/policies/content-hash.ts:42 | a string is its escaped units between quotes |
| CanonicalForms.EscapeStep | trust-core/src/policies/content-hash.ts:42 | unit by unit, except that a surrogate pair stays |
| CanonicalForms.ArraySpelled | trust-core/src/policies/content-hash.ts:43 | the items in order, with commas, in brackets |
| CanonicalForms.ObjectSpelled | trust-core/src/policies/content-hash.ts:44-50 | each member once, in ascending order of keys, as key, colon and value, with commas, in braces |
| CanonicalForms.OrderSpelled | trust-core/src/policies/content-hash.ts:47 | the order is code unit by code unit, with a text before those it starts |
| CanonicalForms.JoinSpelled | trust-core/src/policies/content-hash.ts:49 | a separator between parts and nowhere else |
| QuotedBars.CanonicalBalanced | trust-core/src/policies/content-hash.ts:38-53 | reading a serialised value ends outside every string and meets every bar inside one |
| QuotedBars.NothingAfterBar | trust-core/src/policies/content-hash.ts:38-53 | no text of that kind ends in a bar followed by another of that kind |
| ActionEntries.Collector.Visit | trust-core/src/policies/actions.ts:123-147 | the recursive visitor appends exactly the pre-order entries of the list |
| ActionEntries.ExtractActionEntries | trust-core/src/policies/actions.ts:121-155 | the collected entries are those of the manifest's actions assertions in order |
| ActionEntries.ContributesIff | trust-core/src/policies/actions.ts:133-138 | what one item contributes: its own name, parameters and source type, and at most one entry |
| ActionEntries.ListedIffDeclared | trust-core/src/policies/actions.ts:123-147 | an entry is collected exactly when some item reached through at most four `related` steps has its non-empty name, its parameters and, unless empty, its source type |
| ActionEntries.EntriesAreDeclared | trust-core/src/policies/actions.ts:121-155 | the same for a whole manifest: collected exactly when declared in one of its actions assertions |
| DocumentOrder.EntriesInDocumentOrder | trust-core/src/policies/actions.ts:121-155 | the entries of a manifest are those of its contributing items, one each and no other, in document order, parents before their related items, from both spellings of the assertion |
| ContentIdentity.ExtractContentExtent | trust-core/src/policies/content-hash.ts:62-69 | the loop, sort and join give the extent of the manifest's trims |
| ContentIdentity.BuildContentIdentity | trust-core/src/policies/content-hash.ts:82-90 | nothing without a capture label; otherwise the label, with a bar and the extent when that is not empty |
| ContentIdentity.IdentitySpelled | trust-core/src/policies/content-hash.ts:62-90 | the identity of a trimmed upload as text: label, bar, `c2pa.trimmed:` and its parameters; and of an untrimmed one: the label |
| ContentIdentity.TrimsApart | trust-core/src/policies/content-hash.ts:62-90 | two uploads of one capture with one trim each share an identity exactly when their parameters are equal up to key order |
| ContentIdentity.TwoTrimsSpelled | trust-core/src/policies/content-hash.ts:65-68 | two trims: their texts in ascending order with a semicolon, whatever their order in the document |
| ContentIdentity.ExtentEqualIff | trust-core/src/policies/content-hash.ts:62-69 | equal extents exactly for equal multisets of trim parameters up to key order |
| ContentIdentity.ExtentEmptyIff | trust-core/src/policies/content-hash.ts:62-69 | only an untrimmed upload has the empty extent |
| ContentIdentity.IdentityEqualIff | trust-core/src/policies/content-hash.ts:71-90 | for labels in which no bar is followed by `c2pa.trimmed:`: equal identities exactly for the same capture with the same trims |
| ContentIdentity.IdentityCollidesIff | trust-core/src/policies/content-hash.ts:82-90 | for any labels: equal identities exactly for the same capture and trims, or when one upload is untrimmed and its label is the whole identity of the other, trimmed one |
| ContentIdentity.ExtentAfterBar | trust-core/src/policies/content-hash.ts:62-90 | no extent is any text, a bar and a whole extent, the empty one included |
| ContentIdentity.BarCollision | trust-core/src/policies/content-hash.ts:82-90 | two uploads with one identity: of any capture, trimmed without parameters, and of an untrimmed one labelled with that identity |
| ContentIdentity.ExtentOfReordered | trust-core/src/policies/content-hash.ts:62-69 | the extent ignores the order of entries and all entries that are not trims |
| ContentIdentity.ExtentOfSplit | trust-core/src/policies/content-hash.ts:62-69 | splitting an actions assertion in two, in either spelling, changes nothing |
| ContentIdentity.ExtentOfNested | trust-core/src/policies/actions.ts:123-147 | moving actions into the `related` list of the one they follow, behind what it holds and at any place in the tree, changes nothing within the depth read |
| GenerativeAi.FindInEntries | trust-core/src/policies/generative-ai.ts:83-88 | the first listed entry of a manifest, or none |
| GenerativeAi.ListedIff | trust-core/src/policies/generative-ai.ts:33-36 | an entry counts exactly when its source type is one of the two terms, each under `http` and `https` |
| GenerativeAi.NoteIngredients | trust-core/src/policies/generative-ai.ts:89-95 | the loop over ingredients notes each unseen reference once, in order, and queues those that are present |
| GenerativeAi.FindGenerativeAiSource | trust-core/src/policies/generative-ai.ts:71-100 | the loops over frontier, entries and ingredients compute the breadth-first search |
| GenerativeAi.FoundIffReachable | trust-core/src/policies/generative-ai.ts:71-100 | on any store, cyclic or not: a hit exactly when a manifest within 16 hops declares one of the four addresses; the hit is at the least such distance and is the first such declaration in document order |
| SearchOrder.FoundOnLeastRoute | trust-core/src/policies/generative-ai.ts:71-100 | the hit is the first declaration of the manifest at the end of the least route to any declaration, shorter routes and earlier ingredients first; none exactly when no route of at most 16 hops leads to one |
| GenerativeAi.StrayManifestsIgnored | trust-core/src/policies/generative-ai.ts:71-100 | manifests that nothing within reach refers to never change the result |
| CivilCalendar.NumberOfCivil | ca/_shared/attestation/android.ts:676-680 | day number and civil date are inverse on every day |
| CivilCalendar.NumberOrder | ca/_shared/attestation/android.ts:676-680 | day numbers order dates as the calendar does |
| CivilCalendar.CivilOfNumber | ca/_shared/attestation/android.ts:676-680 | the date of a date's day number is that date |
| CivilCalendar.EpochDay | ca/_shared/attestation/android.ts:676-680 | 1970 begins on day 719528 of the count |
| CivilCalendar.DayNumberClosed | ca/_shared/attestation/android.ts:676-680 | the day number by the usual closed form, with years and months counted from March |
| CivilCalendar.MomentDay | ca/_shared/attestation/android.ts:676-680 | a moment is on the day as many times 86,400,000 ms after the first of January 1970 |
| CivilCalendar.TodayExists | ca/_shared/attestation/android.ts:676-680 | every moment falls on exactly one date of the calendar |
| CivilCalendar.DayIntegersOrder | ca/_shared/attestation/android.ts:676-680 | YYYYMMDD integers compare as day numbers do |
| CivilCalendar.MonthIntegersOrder | ca/_shared/attestation/android.ts:669-674 | YYYYMM integers compare as month counts do, across year ends |
| TaggedFields.FindTaggedField | ca/_shared/attestation/android.ts:498-506 | the first field with the context tag, or none when none has it |
| TaggedFields.ReadScalar | ca/_shared/attestation/android.ts:509-536 | the number in the first tagged field: of its first child, which must have an allowed universal tag, when constructed, and of its own octets when primitive; nothing without octets |
| TaggedFields.ReadingIsUnique | ca/_shared/attestation/android.ts:523-536 | a list has one reading per tag |
| TaggedFields.ShapesAgree | ca/_shared/attestation/android.ts:787-800 | the explicit and the implicit wire shape of the same octets read alike |
| AndroidEvidence.ExtractOsPatchLevel | ca/_shared/attestation/android.ts:801-879 | from the authorization list: the first [706] field's INTEGER, in either shape, day dropped, 2000-01 to 2100-12 only |
| AndroidEvidence.ExtractDayPatchLevel | ca/_shared/attestation/android.ts:584-593 | from the authorization list: the first such field's INTEGER or ENUMERATED, in either shape, YYYYMM read as its first day, bounded range only |
| AndroidEvidence.LevelsRead | ca/_shared/attestation/android.ts:590-592 | which month and which day a wire value means, spelled out |
| AndroidEvidence.ReadersAgree | ca/_shared/attestation/android.ts:584-593 | what the day reader accepts the os reader accepts as the same month, and exactly which values only the latter accepts |
| AndroidEvidence.FieldsAgree | ca/_shared/attestation/android.ts:801-879 | on one field: where the os reader makes out a number, the day reader makes out the same, and its level's month is the os level |
| AndroidEvidence.OsWindow | ca/_shared/attestation/android.ts:748-756 | the os comparisons hold exactly from three months before the month of today to one after it |
| AndroidEvidence.FirmwareWindow | ca/_shared/attestation/android.ts:757-772 | the vendor and boot comparisons hold exactly from 90 days before today to 31 days after it |
| AndroidEvidence.LimitsAreDates | ca/_shared/attestation/android.ts:669-680 | the four limits are the integers of the month three back and one ahead and of the days 90 back and 31 ahead of today |
| AndroidEvidence.MaxVersion | ca/_shared/attestation/android.ts:709-716 | the greatest version of the named package, or none without any |
| AndroidEvidence.MonthSpelled | ca/_shared/attestation/android.ts:633-636 | the month shown: the year, a dash and two digits |
| AndroidEvidence.DaySpelled | ca/_shared/attestation/android.ts:638-643 | the day shown: the month shown, a dash and two digits |
| AndroidEvidence.IsoMonthInjective | ca/_shared/attestation/android.ts:633-636 | the month shown determines the level it spells |
| AndroidEvidence.IsoDayInjective | ca/_shared/attestation/android.ts:638-644 | the day shown determines the level it spells |
| AndroidEvidence.StalePatchDetail | ca/_shared/attestation/android.ts:647-667 | the os month as shown when the os row failed, else the least of the stale firmware dates as shown, which exists |
| AndroidEvidence.TableMeans | ca/_shared/attestation/android.ts:702-772 | no row fails exactly when the table is met, spelled out row by row with its constants |
| AndroidEvidence.EnforceAl2Evidence | ca/_shared/attestation/android.ts:695-780 | accepts exactly when the spelled-out table is met, reports exactly the rows that fail as spelled out row by row, once each and in the table's order, and blames stale patches with the right date exactly when some row fails and all failing rows are stale-patch rows |
| AndroidEvidence.PatchRowsOnCalendar | ca/_shared/attestation/android.ts:748-772 | for real dates the patch rows all hold exactly when all three lie in their calendar windows |
| RevocationList.ParseAndroidRevocationList | ca/_shared/attestation/android_revocation.ts:44-69 | fails exactly on lists that are malformed, empty or have a key that is not hexadecimal digits in some case; else maps each normal form to the last entry listed under it |
| RevocationList.WrittenIff | ca/_shared/attestation/android_revocation.ts:52 | lowercasing keeps what a key is worth, digit by digit in either case |
| RevocationList.SerialForms | ca/_shared/attestation/android_revocation.ts:24-28 | the canonical numerals of the octets' value in bases 16 and 10 |
| RevocationList.FindRevoked | ca/_shared/attestation/android_revocation.ts:30-40 | a hit exactly when some listed key, in any case and with any leading zeros, is written as the serial in base 16 or base 10, with that numeral and that key's status and reason |
| RevocationList.PaddingIrrelevant | ca/_shared/attestation/android_revocation.ts:22-28 | zero octets before the serial change neither form |
| RevocationLoader.Loader.Load | ca/_shared/attestation/android_revocation.ts:77-112 | one call is a schedule of the protocol: it begins, arbitrary steps of others follow while its fetch runs, and its fetch ends; exactly when it fetches, by age and retry time, and what it then returns: its own list, the older usable one, or an exception |
| RevocationLoader.ReturnedIsFresh | ca/_shared/attestation/android_revocation.ts:77-112 | in every overlap and with any time-out a returned list was fetched less than seven days before the call, a call whose own fetch succeeded returns that list, and a call throws exactly when its own fetch failed with no usable copy |
| RevocationLoader.SpacedIffAlone | ca/_shared/attestation/android_revocation.ts:7-12 | in every run a fetch made while a copy is usable comes 24 h after a success and five minutes after a failure, less at most the time-out, if and only if no fetch was in flight when it began |
| RevocationLoader.AlwaysSpacedIffAlone | ca/_shared/attestation/android_revocation.ts:84-112 | the full gaps are kept at every moment of a run if and only if it never begins a fetch while another is in flight |
| RevocationLoader.OverlapFetchesTwice | ca/_shared/attestation/android_revocation.ts:84-91 | a run from the start in which two calls at one moment both fetch, a day after the first fetch |
| RevocationLoader.LateWriterCostsTimeout | ca/_shared/attestation/android_revocation.ts:92-100 | a run from the start in which an older fetch that ends last costs exactly the time-out |
| CertificatePem.DecodeEncode | ca/_shared/attestation/pki.ts:278-289 | base64 decoding undoes encoding for every byte string |
| CertificatePem.AlphabetSpelled | ca/_shared/attestation/pki.ts:285-289 | the base64 alphabet of section 4 of RFC 4648 |
| CertificatePem.GroupsSpelled | ca/_shared/attestation/pki.ts:285-289 | four characters carry the 24 bits of three bytes, and shorter ends their bits followed by zeros |
| CertificatePem.EncodeSpelled | ca/_shared/attestation/pki.ts:285-289 | three bytes at a time, what is left padded to four characters |
| CertificatePem.DerToCertPem | ca/_shared/attestation/pki.ts:1160-1167 | the line loop gives the wrapped PEM of the bytes |
| CertificatePem.PemSpelled | ca/_shared/attestation/pki.ts:1160-1167 | the marker lines, and the base64 text in lines of 64 characters between them |
| CertificatePem.PemRoundTrip | ca/_shared/attestation/pki.ts:270-276 | unwrapping a certificate's PEM gives back its bytes, whatever they are |
| CertificatePem.ChainSplits | ca/_shared/attestation/pki.ts:1293-1317 | a leaf PEM and any stored text with one block, with or without final newline, split into exactly two blocks: the leaf's, which unwraps to the leaf, and the stored text's own |
| CertificatePem.IssuedChainSplits | ca/_shared/attestation/pki.ts:1160-1179 | with an intermediate in the form certificates are written in, the two blocks unwrap to the two certificates |
| CertificateSerial.Normalize | ca/_shared/attestation/pki.ts:1305-1307 | in place: the sign bit cleared, a zero first byte made one, nothing else changed |
| CertificateSerial.WrittenSpelled | ca/_shared/attestation/pki.ts:860-861 | the first byte keeps its low seven bits or becomes one, and the others stay |
| CertificateSerial.BuildLeafSerial | ca/_shared/attestation/pki.ts:843-867 | refuses lengths outside 1 to 20; otherwise a fresh copy with both changes, the template untouched |
| CertificateSerial.BytesToBigIntDecimal | ca/_shared/attestation/pki.ts:1327-1333 | the canonical decimal of the octets' value |
| CertificateSerial.IssueSerial | ca/_shared/attestation/pki.ts:1277-1308 | the serial in the certificate, the serial returned and the decimal returned are one number |
| CertificateSerial.WrittenIsPositiveDer | ca/_shared/attestation/pki.ts:853-861 | every draw gives positive, minimal INTEGER contents |
| CertificateSerial.ResponderFindsIssued | ocsp-leaf/responder.ts:49-57 | the responder's decimal of the issued serial, under any zero padding, is the one issuance stored |
| CertificateSerial.LedgerKeysDistinct | ca/_shared/attestation/pki.ts:1300-1308 | two padded request serials, of whatever lengths, share a ledger key exactly when they pad the same issued serial |
| CertificateSerial.DrawsCollideIff | ca/_shared/attestation/pki.ts:1305-1307 | exactly which draws give the same serial |
| Numerals.CanonicalUnique | ca/_shared/attestation/pki.ts:1324-1333 | a canonical numeral is the only one of its value |
| Numerals.DigitsSpelled | ca/_shared/attestation/android_revocation.ts:27 | digits are written `0` to `9` and `a` to `f` |
| Numerals.HexBytesValue | ocsp-leaf/responder.ts:52-56 | the hex digits of octets read back as their big-endian value |
| Numerals.MinimalInjective | ca/_shared/attestation/pki.ts:853-861 | octets without a leading zero are determined by their value, whatever their number |
| GpsCoordinate.DegreesAndMinutes | native/ios/PhotoAttestModule.swift:2010-2018 | the clamp and rollover give degrees and rounded minutes whose minutes print below 60, within half a unit of the value |
| GpsCoordinate.ToXmpGpsCoordinate | native/ios/PhotoAttestModule.swift:2006-2019 | the text printed is that of those degrees and minutes |
| GpsCoordinate.PrintedDegrees | verifier/src/derive-metadata.ts:110-130 | the parser reads a printed text as its degrees and minutes, with the sign of its letter |
| GpsCoordinate.PrintAndParse | native/ios/PhotoAttestModule.swift:1970-1982 | every latitude and longitude survives printing and parsing, within 1/1,200,000 degree, in range and on the same side of zero |
| GpsCoordinate.XmpAcceptedIff | verifier/src/derive-metadata.ts:113-128 | a text of the XMP form gives its degrees, minutes and seconds with the sign of its letter exactly when the letter is of the axis, minutes and seconds are below 60 and the result is in range |
| XmpGrammar.ParsesIff | verifier/src/derive-metadata.ts:114 | a text is parsed exactly when it is written in the grammar, with seconds or without, and as its own parts |
| XmpGrammar.GrammarAccepted | verifier/src/derive-metadata.ts:113-128 | every text of the grammar gives its degrees, minutes and seconds with the sign of its letter exactly when axis, parts and range fit |
| XmpGrammar.CoordinateIs | verifier/src/derive-metadata.ts:110-130 | numbers, blank texts, other texts and anything else: what each counts as |
| XmpGrammar.TrimIs | verifier/src/derive-metadata.ts:113-114 | trimming takes blanks off both ends and nothing else |
| GpsCoordinate.WrongAxisRejected | verifier/src/derive-metadata.ts:119 | no text of the XMP form with the other axis's letter is ever accepted |
| RecordedResults.LiveTrustedUrls | trust-core/src/policies/recorded-results.ts:81-93 | a URL is listed for an assertion URI exactly when the live report trusts it there |
| RecordedResults.FindUnverifiedRecordedFailures | trust-core/src/policies/recorded-results.ts:102-147 | the nested loops report the kept entries of every ingredient in order |
| RecordedResults.RecordedIff | trust-core/src/policies/recorded-results.ts:119-128 | an entry is read exactly when some bucket of the report or of one of its deltas files it, or, without a report, the older list |
| RecordedResults.RecordedCounts | trust-core/src/policies/recorded-results.ts:119-128 | and as often as it is filed |
| RecordedResults.TrustsIff | trust-core/src/policies/recorded-results.ts:109-118 | a parent is trusted exactly when the live delta of this very ingredient reports a trusted chain under its manifest, the addresses spelled out |
| RecordedResults.ReportedIff | trust-core/src/policies/recorded-results.ts:131-142 | an entry is reported exactly when it is a failure and not a clearable one about a parent the live report trusts |
| RecordedResults.ReportIff | trust-core/src/policies/recorded-results.ts:102-147 | an entry is in a store's report exactly when some ingredient of some holder recorded it as a failure and it is not a clearable one about a parent the live report trusts |
| RecordedResults.HoldersInOrder | trust-core/src/policies/recorded-results.ts:102-108 | what earlier holders report comes first |
| RecordedResults.IngredientsInOrder | trust-core/src/policies/recorded-results.ts:108 | and in a holder what its earlier ingredients report |
| RecordedResults.OneIngredient | trust-core/src/policies/recorded-results.ts:107-143 | one ingredient alone reports what it reports in any holder |
| RecordedResults.EntriesInOrder | trust-core/src/policies/recorded-results.ts:130-142 | and of an ingredient its entries in the order in which they are read |
| RecordedResults.BucketsInOrder | trust-core/src/policies/recorded-results.ts:119-128 | which is the report's own buckets and then each delta's, successes, informational entries and failures, or the older list |
| RecordedResults.ReportMonotone | trust-core/src/policies/recorded-results.ts:102-147 | over a whole store, recording more or trusting less never loses a reported entry, counting repeats |
| RecordedResults.BucketsIgnored | trust-core/src/policies/recorded-results.ts:68-77 | how entries are spread over buckets and deltas does not change the multiset reported |
| RecordedResults.LostOnlyByClearing | trust-core/src/policies/recorded-results.ts:134-141 | of a whole store's report more trust takes away exactly the newly cleared entries, counting repeats |
| RecordedResults.ClearedIff | trust-core/src/policies/recorded-results.ts:134-141 | a newly cleared entry is a clearable failure about the ingredient's own parent, trusted now and not before |
| RecordedResults.UnderOneManifest | trust-core/src/policies/recorded-results.ts:110-113 | a URL lies under one slash-free label only, even when one label starts another |
| RecordedResults.UriUnique | trust-core/src/shapes/manifest.ts:154-164 | an assertion URI belongs to one ingredient of one slash-free holder |
| RecordedResults.ClearedIsAboutParent | trust-core/src/policies/recorded-results.ts:134-141 | a cleared entry is about no other slash-free parent |
| RecordedCodes.CodesFit | trust-core/src/policies/recorded-results.ts:27-66 | both codes a trusted parent clears would otherwise be reported, and the code that clears them never is |
| RecordedCodes.FindPolicyFailures | trust-core/src/policies/recorded-results.ts:102-147 | with the real code lists: an entry is reported exactly when some ingredient recorded it with a code that is neither a success nor a hard-binding code, unless it is an untrusted or expired one about a parent the verifier trusts |
| TsaNames.PairedIsWellFormed | verifier/src/sanitize.ts:205 | removing lone surrogates leaves every surrogate paired |
| TsaReading.ScannedIs | verifier/src/sanitize.ts:253-273 | the entries scanned are the successes and then the informational entries of the active report, the deltas and the ingredients, in order, and no failures |
| TsaReading.LabelIs | verifier/src/sanitize.ts:193-195 | a url gives a label exactly when it has a signature's path for one, and that of the first such path |
| TsaReading.NameIs | verifier/src/sanitize.ts:239-249 | the name is what follows the first `: ` of the first 277 units, up to the last `, trust list:` after it, cleaned |
| TsaReading.NoNameWithoutSeparator | verifier/src/sanitize.ts:241-242 | without `: ` there is no name |
| TsaReading.WrittenNameIsRead | verifier/src/sanitize.ts:211-214 | a storable name is read as it was written, whatever prefix and trust list are around it |
| TsaReading.ControlsRemoved | verifier/src/sanitize.ts:247 | control bytes are removed wherever they stand, and nothing else |
| TsaReading.NameStorable | verifier/src/sanitize.ts:221-224 | every name has at most 200 units, no control byte and every surrogate in a pair, spelled out |
| TsaReading.RecordIs | verifier/src/sanitize.ts:226-276 | a label is in the record exactly when it is not inherited and some entry looked at names an authority for it; the name is the first such entry's and may be stored |
| TsaNames.NamesAreSafe | verifier/src/sanitize.ts:239-249 | whatever the explanation, the name is bounded, free of control bytes and well-formed UTF-16 |
| TsaNames.CleanTextKept | verifier/src/sanitize.ts:245-249 | text that already is so is kept unchanged |
| TsaNames.ExtractTsaByLabel | verifier/src/sanitize.ts:226-276 | the scanning closures compute the record over all success and informational entries in scan order |
| TsaNames.FirstUsableWins | verifier/src/sanitize.ts:232-252 | a label has a name exactly when a scanned entry offers one, and it is the first such entry's |
| TsaNames.KeptNamesAreSafe | verifier/src/sanitize.ts:226-276 | every name in the record is non-empty and safe, and offered for that label by an entry outside the failure buckets |
| KmsCheck.CachedIntermediateCheck.Ensure | ca/register-signing-key/index.ts:175-177 | a call is handed the cached flight or opens one |
| KmsCheck.CachedIntermediateCheck.Continue | ca/register-signing-key/index.ts:178-221 | a flight's end is the protocol's arrival step, with the verdict returned |
| KmsCheck.SingleFlight | ca/register-signing-key/index.ts:169-224 | in every interleaving at most one fetch is in flight, and a call resolves only if its flight matched algorithm and key against its opener's PEM |
| KmsCheck.FlightsJudged | ca/register-signing-key/index.ts:178-221 | every flight in every interleaving ends with the error its fetch, its algorithm and its opener's PEM call for, checked in this order, or with a match |
| KmsCheck.SettledForGood | ca/register-signing-key/index.ts:175-177 | after a flight that ended in no handled failure, a success above all, no further fetch happens and every later call is handed that flight |
| KmsCheck.NextCallRefetchesIff | ca/register-signing-key/index.ts:178-221 | the next call opens a new flight exactly after one of the four handled failures |

## Left out

- Cryptography, ASN.1, CBOR and JUMBF parsing, path validation: done by libraries that are not part of this model; hashes and signatures are opaque and records arrive parsed.
- HTTP handlers, database, KMS and KV transports, configuration, logging, rendering and media probes: plumbing without an obligation of their own.
- RateLimiter.EnforceRateLimit: the path that waves a call through when the store cannot be opened is modelled as a null store and counts nothing, so it is outside the bound of `AdmissionsPerSpan`.
- AndroidEvidence.EnforceAl2Evidence: the message is the sequence of failing rows, not the text that joins their names.
- TaggedFields.ReadScalar: the parser's nodes are given; a set of integers and the root of trust, read from the same lists, arrive parsed.
- CivilCalendar.CivilOf: days and months are counted from year 0 in the Gregorian calendar; moments before 1970 are not modelled.
- GpsCoordinate.ToXmpGpsCoordinate: on exact reals; binary rounding, non-finite values, altitude and timestamps are not modelled.
- GpsCoordinate.ToCoord: a string that is not an XMP coordinate is passed together with the number it converts to, if any.
- CanonicalJson.CanonicalEqualIff: object keys are distinct, as in a parsed object; numbers are their numerals, with non-finite ones collapsing to null.
- GenerativeAi.FindGenerativeAiSource: labels inherited from an object's prototype are not part of a store.
- TsaNames.ExtractTsaByLabel: labels that a fresh record already answers for through its prototype are passed as the set `inherited`.
- RecordedResults.FindUnverifiedRecordedFailures: holders are taken in the order in which the store lists them; whether this and the binding policy together judge every recorded code is not claimed.
- KmsCheck.CachedIntermediateCheck.Continue: a key fetch always ends after the call that opened it has returned; a fetch that throws synchronously is not modelled.
- OcspResponder.Responder.Respond: the two waits of signing count as one, and answers are compared by what they say, not byte by byte.
- The other policies on actions (`findDisallowedActions` and its siblings), the binding policy, certificate validity and location gates: one-branch filters that would only add easy members.
