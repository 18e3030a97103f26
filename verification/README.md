# Verified model of BookPro's shared primitives

A Dafny 4.11 model of five parts that BookPro's booking and availability code rests on, with proofs of
what they promise. `dafny verify dfyconfig.toml` checks everything.

| files | part |
|---|---|
| `Intervals`, `IntervalLaws` | half-open time intervals, `normalizeSet`, `subtractSet`, `intersectSets`, and the laws between them |
| `Calendar`, `Resolver` | `LocalDate` arithmetic on the day numbers of section 21.4.1 of ECMA-262, and the wall-clock resolver for an arbitrary zone |
| `CanonicalJson`, `JsonReader`, `JsonSpelling`, `Utf8`, `RequestHash` | the canonical JSON printer, an RFC 8259 reader that inverts it, which spelling of a value it writes, UTF-8, and the request hash |
| `PubSub`, `RedisSubscriptions`, `PrefixDeletion` | refcounted subscriptions as a protocol and as a class on shared `Set` objects; tenant keys and prefix deletion |
| `Reconciliation`, `ReconciliationLaws`, `ReconciliationScript` | the Stripe reconciliation run, its laws over one and several runs, and its loops |
| `TokenRefresh`, `ApiClient` | the shared token refresh as a protocol, and as the module's mutable state with promise objects that the waiting calls share |

How the model is arranged. An `Instant` is an integer of milliseconds. Code that loops or changes state is a
method or a class, proved equal to a function; the laws are lemmas about that function. An interval is a
value whose type carries the constructor's check (`end >= start`), so every interval built anywhere is
proved not to make the constructor throw. Asynchronous code is a state machine: a call runs to its first
`await` in one step, and any interleaving of steps is a run.

Two ideas carry much of the proof. `Touches` looks at the closed intervals of a list on a line with a point
between any two milliseconds; it sees adjacency and zero-length intervals, and makes `normalizeSet` a
canonical form for all lists. `Meaning` maps a JavaScript value to a JSON value whose objects are maps, so
that "equal up to key order and omitted properties" is plain equality.

Where the code differs from what its comments or names suggest, the model follows the code:

- `resolveLocalToInstant` is documented as handling gaps and ambiguous times. Its `"earlier"`/`"later"` flag
  does not choose between the readings of a repeated hour, and the default mode also misses ordinary times
  near a change (`RepeatedTimeIgnoresTheFlag`, `EarlierMisses`, `DefaultModeMissesFourOClock`).
- A zero-length interval is legal, and two set laws fail for isolated ones; the exact conditions are
  `SubtractInTurn` and `IntersectBySubtracting`.
- `plusDays` goes through `Date.UTC`, which takes the years 0 to 99 as 1900 to 1999 (`PlusDaysIsAdditive`,
  `DayIntoTheRemappedYears`).
- A failed SUBSCRIBE or UNSUBSCRIBE can leave listener table and server in disagreement (`FailureRecovers`,
  `InStepAtTheEnd`).
- `buildKey` is documented as a tenant-safe prefix scheme. It does not escape colons: a prefix matches only its
  own tenant's keys exactly when neither name has one (`PrefixIsTenantSafe`).
- `delPrefix` takes a prefix but sends a pattern, so a prefix with special characters is not taken literally
  (`GlobIsPrefix`).
- `delPrefix` returns 0 after an error even if earlier pages were deleted (`CountIsEnough`,
  `FailureUndercounts`).
- One reconciliation run can close the incident of a refund it leaves pending (`OneRunIsEnough`,
  `OneRunMayLeaveNoIncident`).

## Model

| member | source | states |
|---|---|---|
| Intervals.Intersection | packages/server-core/src/time-primitives.ts:358-370 | the result contains exactly the common instants, is null only if there are none and neither interval is a zero-length one strictly inside the other, lies in both intervals, and has zero length only in that case; it never makes the constructor throw |
| Intervals.SubtractPoints | packages/server-core/src/time-primitives.ts:376-388 | what is left covers the instants of the interval outside the subtrahend, stays within the interval, and has a zero-length piece only if the interval itself is one that the subtrahend does not strictly contain |
| Intervals.SortByStartSorts | packages/server-core/src/time-primitives.ts:395-395 | the sort orders by start, permutes its input and keeps the order of equal starts |
| Intervals.NormalizedIsNormal | packages/server-core/src/time-primitives.ts:393-411 | the normal form is sorted with every end strictly before the next start and has the input's closed cover and its instants |
| Intervals.NormalIsUnique | packages/server-core/src/time-primitives.ts:390-411 | a closed cover has at most one sorted list with strict gaps |
| Intervals.NormalizedIsCanonical | packages/server-core/src/time-primitives.ts:393-411 | two lists, zero-length intervals included, normalise to the same sequence if and only if they have the same closed cover |
| Intervals.NormalizedFixpoint | packages/server-core/src/time-primitives.ts:393-411 | normalising changes nothing exactly for lists that are already normal; it is idempotent |
| Intervals.NormalizedIgnoresOrder | packages/server-core/src/time-primitives.ts:393-411 | the order of the input does not matter |
| Intervals.NormalizedByCoverage | packages/server-core/src/time-primitives.ts:393-411 | without zero-length intervals, equal normal forms if and only if the same instants are covered |
| Intervals.ZeroLengthInNormalized | packages/server-core/src/time-primitives.ts:393-411 | a zero-length interval survives normalising exactly when no other interval reaches it |
| Intervals.MergeSorted | packages/server-core/src/time-primitives.ts:396-410 | the merge loop computes the fold the normal form is defined by |
| Intervals.NormalizeSet | packages/server-core/src/time-primitives.ts:393-411 | normalizeSet returns the normal form: strict gaps, same closed cover, same instants |
| Intervals.SubtractSet | packages/server-core/src/time-primitives.ts:416-428 | subtractSet returns a normal list covering exactly the base instants no subtrahend covers, for all lists |
| Intervals.SubtractedAt | packages/server-core/src/time-primitives.ts:416-428 | exact description of subtractSet at every instant, including which zero-length base intervals survive |
| Intervals.IntersectSets | packages/server-core/src/time-primitives.ts:433-447 | intersectSets returns a normal list without zero-length intervals covering exactly the common instants |
| Intervals.IntersectedIsNormal | packages/server-core/src/time-primitives.ts:437-446 | the closing normalizeSet of intersectSets is always the identity |
| Intervals.IntersectedAt | packages/server-core/src/time-primitives.ts:433-447 | exact description of intersectSets at every instant |
| Intervals.NormalByPoints | packages/server-core/src/time-primitives.ts:390-411 | covered instants and zero-length members determine a normal list |
| IntervalLaws.SubtractInTurn | packages/server-core/src/time-primitives.ts:416-428 | subtracting B and C together equals subtracting them in turn if and only if no isolated zero-length base interval is surrounded by both lists together but by neither alone |
| IntervalLaws.SubtractInTurnWithoutZeroLength | packages/server-core/src/time-primitives.ts:416-428 | the law holds for all B and C when the base has no zero-length interval |
| IntervalLaws.SubtractInTurnCanFail | packages/server-core/src/time-primitives.ts:416-428 | a concrete input on which the two results differ |
| IntervalLaws.IntersectBySubtracting | packages/server-core/src/time-primitives.ts:416-447 | intersecting is subtracting twice if and only if no zero-length base interval is isolated |
| IntervalLaws.IntersectBySubtractingCanFail | packages/server-core/src/time-primitives.ts:416-447 | a concrete zero-length interval for which the two differ |
| IntervalLaws.IntersectIsCommutative | packages/server-core/src/time-primitives.ts:433-447 | intersectSets is commutative as a sequence |
| IntervalLaws.IntersectIsAssociative | packages/server-core/src/time-primitives.ts:433-447 | intersectSets is associative as a sequence |
| IntervalLaws.IntersectDistributes | packages/server-core/src/time-primitives.ts:393-447 | intersection distributes over the normalised union, for all lists |
| IntervalLaws.ClosingNormalizeIsIdentity | packages/server-core/src/time-primitives.ts:417-427 | the closing normalizeSet of subtractSet is the identity if and only if no isolated zero-length subtrahend lies strictly inside the base |
| IntervalLaws.CutInsideIsRejoined | packages/server-core/src/time-primitives.ts:420-427 | otherwise it rejoins the cut: one interval of the result strictly contains that subtrahend |
| IntervalLaws.TimeIsConserved | packages/server-core/src/time-primitives.ts:350-447 | the total duration of the normalised base is that of subtractSet plus that of intersectSets, for all lists |
| IntervalLaws.MinutesAfterCutting | packages/server-core/src/time-primitives.ts:346-348 | n consecutive pieces add at most n / 2 to the rounded minutes and take away at most (29999 n + 30000) / 60000, both rounded down |
| IntervalLaws.CuttingBoundsAreReached | packages/server-core/src/time-primitives.ts:346-348 | both bounds are reached for every n: the upper by half-minutes, the lower by pieces of 29999 ms |
| Calendar.ConstructorAccepts | packages/server-core/src/time-primitives.ts:104-112 | the LocalDate constructor accepts exactly the months and days that occur in the calendar, 30 February included |
| Calendar.DayNumbersFollowTheCalendar | packages/server-core/src/time-primitives.ts:137-141 | consecutive day numbers are consecutive calendar days, counted from 1970-01-01 |
| Calendar.DateOfDayIsReal | packages/server-core/src/time-primitives.ts:140-140 | the UTC fields of a day are a real date with that day number |
| Calendar.RealDateRoundTrip | packages/server-core/src/time-primitives.ts:138-140 | every real date is the UTC fields of its day number |
| Calendar.PlusDaysMeaning | packages/server-core/src/time-primitives.ts:137-141 | plusDays moves the `Date.UTC` day by the given days, for every date the constructor accepts, and is NaN exactly outside the range of `Date` |
| Calendar.RemapMoves | packages/server-core/src/time-primitives.ts:138-138 | the remapping of the years 0 to 99 moves a date forward by 693960 or 693961 days |
| Calendar.PlusDaysIsAdditive | packages/server-core/src/time-primitives.ts:137-141 | days add up if and only if the intermediate date is not in the years 0 to 99 |
| Calendar.DayIntoTheRemappedYears | packages/server-core/src/time-primitives.ts:137-141 | one day back from 0100-01-01 and one forward again gives 2000-01-01 |
| Calendar.MinusDaysUndoes | packages/server-core/src/time-primitives.ts:137-145 | minusDays undoes plusDays if and only if the date is real and neither date is in the years 0 to 99 |
| Calendar.DayOfWeekAdvances | packages/server-core/src/time-primitives.ts:128-141 | the weekday advances by n modulo 7 if and only if the later date is not in the years 0 to 99 |
| Calendar.EpochIsThursday | packages/server-core/src/time-primitives.ts:128-131 | the weekday count is anchored at Thursday 1970-01-01 |
| Resolver.OffsetProbe | packages/server-core/src/time-primitives.ts:225-251 | formatting an instant and reparsing it as UTC gives the zone's offset |
| Resolver.RealWallRoundTrip | packages/server-core/src/time-primitives.ts:218-222 | `Date.UTC` of a real wall time reads back as that wall time |
| Resolver.ResolvesTo | packages/server-core/src/time-primitives.ts:210-265 | the resolver succeeds and depends only on the two offset probes |
| Resolver.ReadsBackIffReading | packages/server-core/src/time-primitives.ts:210-328 | a real wall time reads back unchanged if and only if the result is an instant at which the clock shows it |
| Resolver.ErrorsOfTheResolver | packages/server-core/src/time-primitives.ts:210-328 | both conversions fail with the time zone error if and only if the zone is unknown; a wall time out of the range of `Date` fails with the date error otherwise |
| Resolver.EarlierReadsBack | packages/server-core/src/time-primitives.ts:253-264 | in "earlier" mode, for any zone, the result reads back off by exactly the difference of the two probes, so unchanged if and only if they agree |
| Resolver.LaterReadsBackInAnyZone | packages/server-core/src/time-primitives.ts:253-264 | in "later" mode, for any zone, the result reads back off by the difference of the offset at the result and the second probe, so unchanged if and only if they agree |
| Resolver.EarlierMisses | packages/server-core/src/time-primitives.ts:253-264 | with at most one change nearby, "earlier" mode misses exactly the times for which the change lies between the guess and its first correction |
| Resolver.LaterReadsBack | packages/server-core/src/time-primitives.ts:253-264 | with at most one change nearby, from offset a to b, "later" mode reads back exactly the wall times that exist: those outside change + a to change + b |
| Resolver.InstantReturns | packages/server-core/src/time-primitives.ts:210-328 | resolving the wall clock of an instant gives the instant back, for any zone, exactly when the first ("earlier") or second ("later") probe finds its offset |
| Resolver.InstantReturnsAcrossOneChange | packages/server-core/src/time-primitives.ts:210-328 | with at most one change nearby: exactly when instant and guess are on the same side of it, or, in "later" mode, also when the wall time is shown only once |
| Resolver.ReadingsOfOneChange | packages/server-core/src/time-primitives.ts:206-209 | which instants show a wall time around one change |
| Resolver.RepeatedTimeIgnoresTheFlag | packages/server-core/src/time-primitives.ts:206-264 | a repeated wall time resolves to one of its two readings, the same in both modes |
| Resolver.SkippedTimeLandsOneChangeAway | packages/server-core/src/time-primitives.ts:206-264 | a skipped wall time lands exactly one offset change away, on the side given by mode and guess |
| Resolver.DefaultModeMissesFourOClock | packages/server-core/src/time-primitives.ts:210-264 | New York, 2026-03-08 04:00 resolves to 05:00 by default and to 04:00 in "later" mode |
| Resolver.OrdinaryTimesArePlain | packages/server-core/src/time-primitives.ts:210-265 | real dates of the years 101 to 275000 meet the range assumption of these lemmas for offsets of at most a day |
| CanonicalJson.BeforeIsLexicographic | packages/server-core/src/canonical-hash.util.ts:46-46 | the key order compares the first differing UTF-16 code unit, a proper prefix first |
| CanonicalJson.SortedKeys | packages/server-core/src/canonical-hash.util.ts:46-46 | sorting keeps the keys and orders distinct ones strictly by UTF-16 code units |
| CanonicalJson.PrintedKeysAscend | packages/server-core/src/canonical-hash.util.ts:46-54 | the printed keys of an object are strictly increasing and are exactly its members that are not left out |
| CanonicalJson.SameMeaningSamePrint | packages/server-core/src/canonical-hash.util.ts:11-60 | values that mean the same JSON value print the same text |
| JsonReader.QuoteReads | packages/server-core/src/canonical-hash.util.ts:27-29 | a quoted string, escapes and lone surrogates included, reads back as the string |
| JsonReader.NatReads | packages/server-core/src/canonical-hash.util.ts:20-25 | a printed natural number reads back, whatever non-digit follows |
| JsonReader.PrintReads | packages/server-core/src/canonical-hash.util.ts:11-60 | a printed value followed by any text is read off exactly, leaving that text |
| JsonReader.CanonicalTextReadsBack | packages/server-core/src/canonical-hash.util.ts:11-60 | canonical text is JSON and reads back as the printed value |
| JsonReader.SamePrintIffSameMeaning | packages/server-core/src/canonical-hash.util.ts:11-60 | two values print alike if and only if they are equal up to key order and left-out properties |
| JsonSpelling.QuoteIsShortest | packages/server-core/src/canonical-hash.util.ts:27-29 | the printed form of any string, lone surrogates included, is its one shortest JSON spelling among the well-formed texts, with lower-case hexadecimal digits |
| JsonSpelling.IntIsUnique | packages/server-core/src/canonical-hash.util.ts:20-25 | the printed form of an integer is its one JSON spelling other than -0 |
| JsonSpelling.ObjectText | packages/server-core/src/canonical-hash.util.ts:44-57 | an object is printed as exactly its properties that are not undefined, a function or a symbol, in ascending order of their keys |
| JsonSpelling.SpecialTexts | packages/server-core/src/canonical-hash.util.ts:11-36 | null, undefined and non-finite numbers print as null outside objects, and a function or symbol as the string of it |
| JsonSpelling.PunctuationTexts | packages/server-core/src/canonical-hash.util.ts:39-57 | the code units of the brackets, commas, colons and quotes around printed parts |
| JsonSpelling.PayloadText | packages/server-core/src/canonical-hash.util.ts:66-69 | a nullish payload is hashed as {} and any other as its own text |
| RequestHash.CanonicalJsonStringify | packages/server-core/src/canonical-hash.util.ts:11-60 | the recursive printer with its loops computes the printed text |
| RequestHash.StringifyObject | packages/server-core/src/canonical-hash.util.ts:44-57 | the loop over the sorted keys of an object collects the entries of the printed keys |
| Utf8.DecodeEncode | packages/server-core/src/canonical-hash.util.ts:68-68 | the UTF-8 bytes of a text without lone surrogates decode to the text |
| Utf8.DecodeIsInverse | packages/server-core/src/canonical-hash.util.ts:68-68 | bytes decode to a text under the strict rules of RFC 3629 if and only if the text has no lone surrogate and they are its encoding |
| Utf8.EncodeIsInjective | packages/server-core/src/canonical-hash.util.ts:68-68 | two texts without lone surrogates have the same bytes only if they are equal |
| Utf8.LoneSurrogatesCollide | packages/server-core/src/canonical-hash.util.ts:68-68 | two texts with lone surrogates that have the same bytes: without `PrintIsPaired` distinct texts could hash alike |
| RequestHash.BytesIdentifyRequests | packages/server-core/src/canonical-hash.util.ts:66-69 | the hashed bytes of two payloads are equal if and only if the payloads mean the same |
| RequestHash.HashIdentifiesRequests | packages/server-core/src/canonical-hash.util.ts:66-69 | payloads that mean the same hash alike under any hash function; payloads that mean different things and hash alike are a collision of it |
| RequestHash.PrintIsPaired | packages/server-core/src/canonical-hash.util.ts:68-68 | canonical text has no lone surrogate, whatever the strings of the value contain |
| RequestHash.PutKeepsMeaning | packages/server-core/src/canonical-hash.util.ts:39-57 | replacing a part at any depth keeps the meaning of the whole if and only if the two parts read alike where they stand: as array items or properties, left-out ones included |
| RequestHash.RearrangingKeepsText | packages/server-core/src/canonical-hash.util.ts:44-69 | permuting keys, or adding and removing left-out properties, of an object at any depth changes neither text nor hash |
| PubSub.StepKeepsSound | packages/server-core/src/redis.service.ts:210-265 | every step, failures included, leaves no channel with an empty listener set and no set shared by two channels |
| PubSub.RunsStaySound | packages/server-core/src/redis.service.ts:210-265 | so does every run, in any interleaving |
| PubSub.FailureFreeRunsAgree | packages/server-core/src/redis.service.ts:210-265 | in every failure-free interleaving, replaying the pending commands gives exactly the channels with a listener, and if no command was redundant none becomes so |
| PubSub.DrainedServerIsExact | packages/server-core/src/redis.service.ts:210-265 | once all commands are answered the server has exactly the channels with a listener |
| PubSub.FailureRecovers | packages/server-core/src/redis.service.ts:227-263 | a failed command handled at once leaves server and table in step if and only if it is recoverable, a condition on the state before it, and then the whole invariant holds again |
| PubSub.PromptRunsStayInStep | packages/server-core/src/redis.service.ts:210-265 | in every run whose failures are handled at once, server and table stay in step throughout if and only if every failure is recoverable where it happens |
| PubSub.EffectOnListener | packages/server-core/src/redis.service.ts:210-265 | the exact effect of every event, failures included, on whether a message on a channel reaches a callback |
| PubSub.ReachedAtTheEnd | packages/server-core/src/redis.service.ts:210-265 | in every run, whatever fails, a callback is reached at the end if and only if it joined and has not left since |
| PubSub.MessageReaches | packages/server-core/src/redis.service.ts:70-265 | in every failure-free run from the start, a message reaches exactly the callbacks with a subscribe call that no unsubscribe call of the same callback and channel follows |
| PubSub.EffectOfEvent | packages/server-core/src/redis.service.ts:210-265 | in every sound state, whatever failed before, the exact effect of every event on whether a channel's subscription matches its listeners: the events that mend it, break it or leave it |
| PubSub.InStepAtTheEnd | packages/server-core/src/redis.service.ts:210-265 | in every run, with any failures resumed however late, a channel is in step at the end if and only if it was in step or mended, and mended after every event that broke it |
| PubSub.DrainedServerAfterFailures | packages/server-core/src/redis.service.ts:210-265 | once all commands are answered, failures included, the server has exactly the channels with a listener if and only if every broken channel was mended later |
| PubSub.JoiningListenerIsStranded | packages/server-core/src/redis.service.ts:227-238 | a listener that joined before the failure stays without a subscription |
| PubSub.LateFailureDropsNewListener | packages/server-core/src/redis.service.ts:230-236 | a late failure removes a newer listener set whose own SUBSCRIBE succeeds |
| RedisSubscriptions.RedisService.Subscribe | packages/server-core/src/redis.service.ts:210-238 | subscribe up to its await, on shared sets updated in place, is the protocol's step |
| RedisSubscriptions.RedisService.Unsubscribe | packages/server-core/src/redis.service.ts:249-265 | unsubscribe up to its await is the protocol's step |
| RedisSubscriptions.RedisService.SubscribeFailed | packages/server-core/src/redis.service.ts:230-237 | the catch block, on the set the call kept, is the protocol's step |
| RedisSubscriptions.RedisService.Answer | packages/server-core/src/redis.service.ts:227-263 | the server answers the oldest command |
| RedisSubscriptions.RedisService.Message | packages/server-core/src/redis.service.ts:70-81 | a message reaches exactly the channel's listeners, and none exactly when the channel is not in the table |
| PrefixDeletion.KeySplits | packages/server-core/src/redis.service.ts:128-130 | a key of colon-free names and parts, split at its colons, is bookpro, the organisation, the namespace and the non-empty parts in order, or one empty part if there is none |
| PrefixDeletion.NonEmptyFilters | packages/server-core/src/redis.service.ts:129-129 | filter(Boolean) goes part by part and leaves out exactly the empty ones |
| PrefixDeletion.KeysAreEqual | packages/server-core/src/redis.service.ts:128-130 | two such keys are equal if and only if organisations, namespaces and non-empty parts are |
| PrefixDeletion.PrefixIdentifiesTenant | packages/server-core/src/redis.service.ts:128-130 | for colon-free names, a tenant's prefix starts a built key if and only if the key is that tenant's |
| PrefixDeletion.ColonsMixTenants | packages/server-core/src/redis.service.ts:128-130 | with a colon in a name two tenants can share a prefix |
| PrefixDeletion.PrefixIsTenantSafe | packages/server-core/src/redis.service.ts:125-130 | among the keys of all colon-free tenants, a prefix matches only its own tenant's if and only if neither of its own names has a colon |
| PrefixDeletion.GlobPrefix | packages/server-core/src/redis.service.ts:180-180 | the pattern of a prefix without special characters matches exactly the keys that start with it |
| PrefixDeletion.GlobIsPrefix | packages/server-core/src/redis.service.ts:180-180 | the pattern of a prefix matches exactly the keys that start with it if and only if the prefix has no special character |
| PrefixDeletion.PatternsOfOneCharacter | packages/server-core/src/redis.service.ts:180-180 | what the wildcards, classes, ranges and escapes of a pattern match |
| PrefixDeletion.RedisService.DelPrefix | packages/server-core/src/redis.service.ts:174-192 | the loop deletes what the pages listed, also when only the reply of a DEL is lost, and returns how many they listed, or 0 after an error or without a connection; under SCAN's contract exactly the matching keys go unless a reply fails |
| PrefixDeletion.DelPrefixLeaves | packages/server-core/src/redis.service.ts:174-192 | under SCAN's at-least-once contract and for any prefix, a complete run leaves exactly the keys its pattern does not match; a failed one removes no such key |
| PrefixDeletion.DelPrefixIsExact | packages/server-core/src/redis.service.ts:174-192 | so a complete run for a prefix without special characters leaves exactly the keys that do not start with it |
| PrefixDeletion.TenantKeysAreRemovedExactly | packages/server-core/src/redis.service.ts:128-192 | deleting a tenant's namespace removes exactly the built keys of that tenant and namespace |
| PrefixDeletion.CountIsEnough | packages/server-core/src/redis.service.ts:182-191 | the returned count is at least the number of keys removed if and only if no reply failed or nothing had been removed |
| PrefixDeletion.CountIsExact | packages/server-core/src/redis.service.ts:182-187 | without failures the returned count is the number of keys removed if and only if no key is listed twice and every listed key was present |
| PrefixDeletion.FailureUndercounts | packages/server-core/src/redis.service.ts:182-191 | a concrete failing scan, within SCAN's contract, that removes a key and returns 0 |
| ReconciliationScript.Database.InspectPayment | apps/api/src/scripts/stripe-reconciliation.ts:38-128 | the body of the payment loop is one step of the run |
| ReconciliationScript.Database.InspectRefund | apps/api/src/scripts/stripe-reconciliation.ts:142-219 | the body of the refund loop is one step of the run |
| ReconciliationScript.Database.RunStripeReconciliation | apps/api/src/scripts/stripe-reconciliation.ts:16-223 | the two loops compute the run; every inspected row counts as a discrepancy and is either auto-resolved or enters the flagging code, and the rows that do are, in order, those the run leaves ambiguous |
| ReconciliationScript.Database.FlagIncident | apps/api/src/scripts/stripe-reconciliation.ts:102-127 | the flagging code leaves an OPEN incident for the payment id of the row it is entered for, and makes one only if there is none |
| ReconciliationScript.LeftAmbiguousItems | apps/api/src/scripts/stripe-reconciliation.ts:38-222 | the rows left ambiguous are the inspected ones that Stripe's answers do not settle, and with the settled ones they make up all |
| Reconciliation.RunIsFold | apps/api/src/scripts/stripe-reconciliation.ts:23-219 | a run is the fold of its steps over the payments and then the refunds it inspects |
| ReconciliationLaws.RunOnPayment | apps/api/src/scripts/stripe-reconciliation.ts:24-100 | a run settles each ambiguous payment as Stripe answers and leaves every other payment unchanged |
| ReconciliationLaws.PaymentOutcome | apps/api/src/scripts/stripe-reconciliation.ts:24-100 | which payments are ambiguous, and what each answer of Stripe makes of one: succeeded gives SUCCEEDED with the received amount, or the old one if that is 0; canceled gives FAILED; anything else changes nothing |
| ReconciliationLaws.RunOnRefund | apps/api/src/scripts/stripe-reconciliation.ts:131-190 | the same for refunds, by the first matching refund of the same amount |
| ReconciliationLaws.RefundOutcome | apps/api/src/scripts/stripe-reconciliation.ts:131-190 | which refunds are ambiguous; one settles under an id if and only if the first Stripe refund of its amount that succeeded or is pending did succeed and has that id |
| ReconciliationLaws.RunKeepsIncidents | apps/api/src/scripts/stripe-reconciliation.ts:55-127 | a run keeps at most one OPEN incident per organisation and payment id, removes and reopens none, and touches no other organisation's |
| ReconciliationLaws.RunExplainsIncidents | apps/api/src/scripts/stripe-reconciliation.ts:55-219 | every incident a run closes carries the note of an answer of Stripe about a row of its payment id, every one it makes has the kind, note and fields of the row it is about, and all others stay |
| ReconciliationLaws.OpenAfterRun | apps/api/src/scripts/stripe-reconciliation.ts:38-219 | exactly when a payment id has an OPEN incident after one run |
| ReconciliationLaws.OneRunIsEnough | apps/api/src/scripts/stripe-reconciliation.ts:16-223 | one run leaves every ambiguous row with an OPEN incident if and only if, among the rows before the run, each that Stripe settles after an unsettled one of the same payment id is followed by yet another unsettled one |
| ReconciliationLaws.OneRunMayLeaveNoIncident | apps/api/src/scripts/stripe-reconciliation.ts:169-181 | a concrete run that leaves a pending refund without an OPEN incident |
| ReconciliationLaws.ClosedIncidentMayReopen | apps/api/src/scripts/stripe-reconciliation.ts:102-190 | a concrete run that closes the incident of a row it left and opens a new one for the same payment id |
| ReconciliationLaws.FirstRunIsStuck | apps/api/src/scripts/stripe-reconciliation.ts:16-223 | after a run Stripe's answers settle none of the rows that are still ambiguous |
| ReconciliationLaws.StuckRunFlagsAll | apps/api/src/scripts/stripe-reconciliation.ts:102-127 | a run that settles nothing leaves every ambiguous row with an OPEN incident |
| ReconciliationLaws.ThirdRunIsIdle | apps/api/src/scripts/stripe-reconciliation.ts:16-223 | with fixed answers and clock, in any row orders, the second run changes no row and flags all that are ambiguous, and the third changes nothing |
| ReconciliationLaws.ThreeRunsExist | apps/api/src/scripts/stripe-reconciliation.ts:24-137 | every consistent database has row orders for three successive runs |
| TokenRefresh.StepKeepsSound | apps/web/lib/api-client.ts:19-83 | every continuation keeps the invariant of the shared refresh and of every call |
| TokenRefresh.OneRefreshAtATime | apps/web/lib/api-client.ts:19-43 | over every interleaving at most one refresh is outstanding, the shared variable is set exactly then, and refreshes never outnumber first-attempt 401s |
| TokenRefresh.AtMostOneRetry | apps/web/lib/api-client.ts:74-83 | a call sends at most two main requests, the second only after a successful refresh, and all waiters of a refresh get the same result |
| TokenRefresh.WhoRefreshes | apps/web/lib/api-client.ts:74-83 | over every interleaving a call waits for a refresh if and only if its first response was a 401 and its endpoint is not /auth/login, /auth/refresh or /auth/mfa/complete; calls on those send one request |
| TokenRefresh.FirstResponseEffect | apps/web/lib/api-client.ts:21-83 | a 401 on any other endpoint joins the active refresh or makes the one refresh there is; on those three it touches no refresh |
| TokenRefresh.RunsEnd | apps/web/lib/api-client.ts:21-83 | once no call is started, only a bounded number of events can follow |
| TokenRefresh.NoDeadlock | apps/web/lib/api-client.ts:21-83 | some event can happen if and only if a call or refresh is unfinished |
| ApiClient.Client.RequestTokenRefresh | apps/web/lib/api-client.ts:21-43 | requestTokenRefresh returns the promise object already shared, or makes and shares a new one |
| ApiClient.Client.OnFirstResponse | apps/web/lib/api-client.ts:74-83 | the first response is the protocol's step, 401 only on endpoints that may refresh |
| ApiClient.Client.OnRefreshSettled | apps/web/lib/api-client.ts:34-39 | setting the result of one shared promise object and clearing the shared variable is the protocol's step, for every call that waits on it |
| ApiClient.Client.OnRefreshed | apps/web/lib/api-client.ts:81-82 | a waiting call retries once if and only if the refresh succeeded |

## Left out

- Time zone data, `Intl` formatting (with its hour-24 fix-up; the resolver's lemmas need every time near the guess to be in the year 100 or later, because the formatter prints the years before 1 unsigned) and ISO strings: a zone is an arbitrary offset function in whole seconds.
- Resolver.LaterReadsBack: assumes, as the code needs it, at most one offset change within the offset bound of the guess.
- `Instant` and `LocalTime` comparisons, `FixedClock`, parsing and `toString`, `resolveInstantToLocalDate`: direct wrappers that would add easy members.
- Floating point: `durationMinutes` divides exactly before rounding, and the printer's numbers are safe integers or not finite; non-integral number text is not modelled.
- The printer's `Date`, `Buffer` and `BigInt` branches, cyclic values, sparse arrays and objects with prototypes of their own; SHA-256 is an uninterpreted function of the bytes.
- Redis connection handling, `get`, `set`, `publish`, `ping`, a missing subscriber client and `disconnect`.
- Concurrent writers and time-to-live expiry during `delPrefix`; its SCAN replies are parameters of the call.
- Transaction and database errors, uniqueness of `providerRefundId`, concurrent runs and an advancing clock in the reconciliation; `findMany` orders, Stripe's answers and the clock are parameters.
- `booking-reconciliation.ts`: a counting loop that creates incidents without a provider payment id.
- The envelope `apiFetchInternal` builds from a response, its URL and headers: branch chains without state.
- Booking, availability, permission, logging and validation modules, and all of the web pages: they would add mostly easy members.
