# Relay: metrics, envelopes, PII rules, quotas and registration

This project models the parts of Relay that keep state or transform data in several steps, and proves what
they promise over every input and every run. Check it with `dafny verify dfyconfig.toml`.

- **Metrics aggregator** (`relay-metrics`). `Distributions`, `BucketValues`, `FlushSchedule`, `FlushQueues` and
  `Aggregation` model the aggregator as a class with a bucket map and a flush queue. `FlushProtocol` runs it
  beside a receiver that accepts, sends back or loses messages while new metrics arrive, and shows that nothing is
  lost or counted twice (`RunConserves`) and that no merge fails (`RunSucceeds`); `Punctuality` shows that no bucket
  leaves too early. `PreAggregation` shows that
  aggregating in stages preserves meaning, and `Reports` says what a bucket holds in terms of the submitted metrics.
  `Exactness` joins this with the histograms: while fewer than 2^32 samples are submitted for a key, distributions are
  exact multisets everywhere, survive serialization, and aggregating in stages gives the same bucket map.
- **Envelope wire format** (`relay-server`). `EnvelopeFormat` and `Envelopes` model the byte-level parser and
  printer. An envelope survives serialization exactly if its headers can be written and all its items are framed
  (`RoundTripIff`), which for built items comes down to what their setters were given (`BuiltRoundTrip`), and whatever
  the parser accepts is tiled by the header line and the frames of its items (`ParseBytesTiles`).
- **PII rule compilation** (`relay-general`). `PiiRules` models the recursive collection into a mutable set.
  `PiiPaths` defines paths through the rule graph independently of it and shows which leaf rules are collected
  (`CompiledAreReachable`) and with which metadata (`CompiledMetadata`).
- **Lazy cell** (`relay-common`). `LazyCells` steps any number of racing calls through `get_or_insert_with`.
- **Quotas and rate limits** (`relay-quotas`). `RateLimits` shows that the deduplicating collection agrees with the
  plain log of all limits. `RedisKeys`, `RedisLimiter` and `QuotaRuns` model windows, keys, the script and the
  limiter, and show that no window of a quota ever accepts more than its limit, with any number of callers that pass
  their own quotas and have their own clocks (`LimitsHold`).
- **Metric text protocol** (`relay-metrics`). `MetricParser`, `MetricPrinter` and `MetricGrammar`: lines are parsed
  independently, printing is undone by parsing, and what is accepted is spelled out.
- **Registration** (`relay-auth`). `Registration` models signatures and the challenge-response protocol with
  symbolic cryptography, and shows over all runs with an active attacker what a registration goes back to
  (`RegisteredIsAuthentic`).

`Wrappers`, `Instants`, `Metrics`, `Tallies`, `Multiples`, `Decimals`, `ByteStrings` and `Texts` hold shared definitions.

Clock readings, random values, codecs (JSON, UTF-8, base64, the text of floating point numbers), hashes and
cryptographic primitives are parameters; what is demanded of them is written out in the predicates `Lawful`,
`TextReadsBack`, `FloatsReadBack`, `ReadsBack` and `Symbolic`.

Where the code differs from its documentation or from what one might expect, the model follows the code:

- `DistributionValue::insert_multi` is documented to return the number of occurrences, but returns 0 if the
  inserted count is 0, even for a value that occurs (relay-metrics/src/aggregation.rs:176-187).
- `Quota::matches_scope` is documented to match if the scope id is not numeric, but does not
  (relay-quotas/src/quota.rs:277-302); `DocumentationIsRight` gives the exact condition.
- With a maximum limit of 0 seconds, every rate limit of `RedisRateLimiter` expires at once, so a quota of zero no
  longer keeps an item from being counted; `ZeroQuotaCountsNothing` gives the exact condition.
- A limit of a zero quota whose end would lie behind the last instant expires at once; `CheckRefinesLog` includes
  this condition.
- `RegisterResponse::unpack` does not compare the relay id in the response with the one in the token; only the one
  in the token is authenticated (`HonestResponse`, `RegisteredIsAuthentic`).
- An item header whose additional attributes use the name of a regular field, or whose content type is an `Other`
  with the name of a known type, is written as JSON that stands for something else or nothing; `BuiltRoundTrip` gives
  the exact condition and `BuiltFails` two such items.

## Model

| member | source | states |
|---|---|---|
| `Distributions.FromSamplesCounts` | relay-metrics/src/aggregation.rs:159-187 | After any insertions, every value's count is its number of occurrences modulo 2^32, a value is listed exactly if it was inserted, and the length is the number of insertions modulo 2^32. |
| `Distributions.FromSamplesExact` | relay-metrics/src/aggregation.rs:159-187 | The histogram is exactly the multiset of its samples, with positive counts that sum up to the length, if and only if there are fewer than 2^32 samples. |
| `Distributions.IterationSorts` | relay-metrics/src/aggregation.rs:261-268 | Iterating over the values yields them in ascending order, each as often as it is counted. |
| `Distributions.SerializeRoundTrip` | relay-metrics/src/aggregation.rs:302-341 | Deserializing a serialized distribution gives it back. |
| `Distributions.MergeCounts` | relay-metrics/src/aggregation.rs:294-300 | Extending by another distribution adds the counts of every value, modulo 2^32. |
| `Distributions.InsertedBalanced` | relay-metrics/src/aggregation.rs:176-187 | Inserting keeps the length equal to the sum of the counts modulo 2^32, even when a count wraps around. |
| `Distributions.FromSamplesBalanced` | relay-metrics/src/aggregation.rs:325-341 | So every deserialized distribution has the length that its counts say. |
| `Distributions.MergeBalanced` | relay-metrics/src/aggregation.rs:294-300 | Extending adds up the lengths modulo 2^32 and keeps them in line with the counts. |
| `Distributions.MergeExact` | relay-metrics/src/aggregation.rs:294-300 | While all samples fit into 32 bits, extending is the union of multisets and stays exact. |
| `Distributions.InsertedExact` | relay-metrics/src/aggregation.rs:176-187 | While all samples fit into 32 bits, inserting keeps the distribution exact and the length grows by the count. |
| `Distributions.ExactIsCounts` | relay-metrics/src/aggregation.rs:109-113 | Exact distributions are equal if every value occurs equally often. |
| `Distributions.DistributionValue.constructor` | relay-metrics/src/aggregation.rs:119-121 | A new distribution is empty. |
| `Distributions.DistributionValue.InsertMulti` | relay-metrics/src/aggregation.rs:176-187 | Inserting adds to the count and the length with wrap-around; the returned number is the number of occurrences, as documented, if and only if something is inserted or the value did not occur. |
| `Distributions.DistributionValue.Deserialize` | relay-metrics/src/aggregation.rs:325-341 | Reading a list gives the distribution of its samples. |
| `Distributions.DistributionValue.Extend` | relay-metrics/src/aggregation.rs:294-300 | The loop over another distribution's pairs computes the merge of the two. |
| `Distributions.DistributionValue.Serialize` | relay-metrics/src/aggregation.rs:302-309 | What is written is the sorted expansion of the histogram. |
| `Distributions.ValuesIter.constructor` | relay-metrics/src/aggregation.rs:261-268 | A new iterator has all values of an exact histogram pending. |
| `Distributions.ValuesIter.Next` | relay-metrics/src/aggregation.rs:388-401 | Yields the first pending value and keeps the others, without underflow of either counter. |
| `Distributions.ValuesIter.Collect` | relay-metrics/src/aggregation.rs:385-407 | Draining the iterator yields exactly the pending values. |
| `Distributions.ValuesIter.SizeHint` | relay-metrics/src/aggregation.rs:403-406 | The size hint is the exact number of pending values, after every step. |
| `BucketValues.CombineAssociative` | relay-metrics/src/aggregation.rs:522-558 | Combining what buckets report is associative, gauges' last value and distributions' lengths included. |
| `BucketValues.CombineCommutative` | relay-metrics/src/aggregation.rs:522-558 | Combining is commutative except for the last value of gauges. |
| `BucketValues.OccurringMerge` | relay-metrics/src/aggregation.rs:522-535 | Merging distributions adds up the counts of the values that occur. |
| `BucketValues.MergeIntoCombines` | relay-metrics/src/aggregation.rs:491-558 | A merge succeeds exactly if the types agree, keeps the type, and combines what the two sides report, counts and length of a distribution included; a single value counts as the bucket made from it. |
| `BucketValues.MergeIntoSound` | relay-metrics/src/aggregation.rs:522-558 | Merging keeps the length of a distribution in line with its counts. |
| `FlushSchedule.FlushTimeSchedule` | relay-metrics/src/aggregation.rs:768-784 | A flush is never scheduled before now; a pending initial flush lies within one second after timestamp, interval and initial delay; any other flush follows after the debounce delay. |
| `FlushSchedule.FlushTimePanics` | relay-common/src/time.rs:105-119 | Computing the flush time panics exactly if the chosen end runs past the last representable instant. |
| `FlushQueues.PoppedAreHeld` | relay-metrics/src/aggregation.rs:1036-1040 | Every popped queue entry refers to a bucket that is in the map, and none is popped twice, so the lookup cannot fail. |
| `FlushQueues.PopFindsEntry` | relay-metrics/src/aggregation.rs:1037-1038 | In the middle of a flush the next entry's bucket is still there and unchanged. |
| `FlushQueues.DrainedAgrees` | relay-metrics/src/aggregation.rs:1036-1040 | After a flush the queue again refers to every bucket exactly once. |
| `FlushQueues.DueInOrder` | relay-metrics/src/aggregation.rs:813-838 | Entries are popped in nondecreasing order of flush time, each strictly past due. |
| `FlushQueues.PopDue` | relay-metrics/src/aggregation.rs:1036-1040 | The loop pops exactly the due entries, in order and each past due at its reading, leaves none that is past due at the last reading, and emits their buckets. |
| `Aggregation.KeyRoundTrip` | relay-metrics/src/aggregation.rs:677-686 | The key rebuilt from a flushed bucket is the original key exactly if the value has the key's type. |
| `Aggregation.BucketTimestamp` | relay-metrics/src/aggregation.rs:956-961 | The bucket of a timestamp starts at or before it and ends after it. |
| `Aggregation.AbsorbConsistent` | relay-metrics/src/aggregation.rs:966-986 | Merging a value of its key's type never fails and keeps queue, map, types and lengths in line. |
| `Aggregation.AbsorbCombines` | relay-metrics/src/aggregation.rs:966-986 | Merging combines the value with what is held for its key and leaves all other keys alone. |
| `Aggregation.Aggregator.constructor` | relay-metrics/src/aggregation.rs:939-951 | A new aggregator is empty and consistent. |
| `Aggregation.Aggregator.MergeIn` | relay-metrics/src/aggregation.rs:966-986 | Fails exactly on a type mismatch with an existing bucket, without changes, and otherwise adds the value; a new bucket is queued for the flush time at this clock reading, which has to be representable, and nothing else in the queue changes; keeps the invariant for values of the key's type. |
| `Aggregation.Aggregator.Insert` | relay-metrics/src/aggregation.rs:991-1000 | Never fails, keeps the invariant, and files the metric under its interval. |
| `Aggregation.Aggregator.Merge` | relay-metrics/src/aggregation.rs:1005-1014 | Never fails, keeps the invariant, and files the bucket under its rebuilt key. |
| `Aggregation.Aggregator.MergeAll` | relay-metrics/src/aggregation.rs:1019-1028 | All buckets are merged; the loop never stops early. |
| `Aggregation.Aggregator.TryFlush` | relay-metrics/src/aggregation.rs:1033-1040 | Takes out exactly the due buckets in order, rebuilt from key and value, and keeps the invariant. |
| `Tallies.TallyPermutation` | relay-metrics/src/aggregation.rs:522-558 | What a list of submissions reports does not depend on its order, except for gauges' last values. |
| `FlushProtocol.MergeBucketsCombines` | relay-metrics/src/aggregation.rs:1019-1028 | Merging buckets back in succeeds and adds what they report, for every key. |
| `FlushProtocol.FlushMoves` | relay-metrics/src/aggregation.rs:1033-1040 | What was held before a flush is what it emits together with what is held afterwards. |
| `FlushProtocol.InsertConserves` | relay-metrics/src/aggregation.rs:991-1014 | Inserting and merging account for the new submission. |
| `FlushProtocol.FlushConserves` | relay-metrics/src/aggregation.rs:1033-1049 | Sending off due buckets conserves what was submitted. |
| `FlushProtocol.ResolveConserves` | relay-metrics/src/aggregation.rs:1047-1063 | Accepting a message, or losing it in a failed send, accounts for its buckets. |
| `FlushProtocol.RejectConserves` | relay-metrics/src/aggregation.rs:1050-1060 | Merging back the buckets that a receiver returns, in any order and after new data arrived, conserves what was submitted. |
| `FlushProtocol.NextSucceeds` | relay-metrics/src/aggregation.rs:991-1028 | No step returns an aggregation error. |
| `FlushProtocol.NextConserves` | relay-metrics/src/aggregation.rs:966-1063 | Every step keeps the queue in line with the buckets and conserves what was submitted. |
| `FlushProtocol.RunConserves` | relay-metrics/src/aggregation.rs:966-1063 | At the end of every run, for every key, all that was submitted is delivered, dropped, in flight or held, the lengths of distributions included, and queue and map agree. |
| `FlushProtocol.RunSucceeds` | relay-metrics/src/aggregation.rs:966-1063 | No merge in any run fails, and only a failed send drops anything. |
| `Punctuality.NextSchedules` | relay-metrics/src/aggregation.rs:966-986 | A queue entry that is new after a step has the flush time of a clock reading of that step. |
| `Punctuality.RunSchedules` | relay-metrics/src/aggregation.rs:966-1063 | In every run, every queued flush time is the one that was computed for its key at some clock reading of the run. |
| `Punctuality.EmittedInTime` | relay-metrics/src/aggregation.rs:768-784 | In every run, no bucket is emitted before its window and grace period have passed, or the debounce delay if they had when it was created, by the clock at which it was created. |
| `PreAggregation.InsertMetricsCombines` | relay-metrics/src/aggregation.rs:1117-1123 | Inserting metrics succeeds and adds exactly what they report, whatever the delays and clock readings. |
| `PreAggregation.MergeFlushed` | relay-metrics/src/aggregation.rs:1019-1040 | Merging all that another aggregator flushes combines what the two hold. |
| `PreAggregation.PreAggregationPreservesMeaning` | relay-metrics/src/aggregation.rs:956-1028 | Aggregating `xs + ys` in one place holds the same for every key as aggregating them apart and merging, gauges' last value and distributions' lengths included, even when counts wrap around. |
| `PreAggregation.OrderDoesNotMatter` | relay-metrics/src/aggregation.rs:46-61 | Permuting the metrics changes nothing that is reported for any key but gauges' last values, even when counts wrap around. |
| `Exactness.MergeIntoExact` | relay-metrics/src/aggregation.rs:522-558 | While the samples fit into 32 bits, a merge keeps distributions exact and adds up their lengths. |
| `Exactness.InsertMetricsExact` | relay-metrics/src/aggregation.rs:1117-1123 | While the samples of every key fit into 32 bits, every held distribution is exact and has as many samples as metrics were inserted. |
| `Exactness.MergeBucketsExact` | relay-metrics/src/aggregation.rs:1019-1028 | The same for merged buckets. |
| `Exactness.PreAggregationGivesSameBuckets` | relay-metrics/src/aggregation.rs:956-1028 | While the samples of every key fit into 32 bits, aggregating in stages gives the very same bucket map as aggregating in one place. |
| `Exactness.OrderGivesSameBuckets` | relay-metrics/src/aggregation.rs:46-61 | While the samples of every key fit into 32 bits, permuting the metrics gives the same bucket map except for gauges' last values. |
| `Exactness.RejectExact` | relay-metrics/src/aggregation.rs:1050-1060 | Merging back returned buckets keeps distributions exact and conserves the number of samples. |
| `Exactness.RunExact` | relay-metrics/src/aggregation.rs:966-1063 | In every run, while the submitted samples of every key fit into 32 bits, all distributions that are held, in flight, delivered or dropped are exact, and their numbers of samples add up to those submitted. |
| `Exactness.RunSerializes` | relay-metrics/src/aggregation.rs:302-341 | So every distribution that is sent off can be iterated without underflow, and the receiver reads back the same. |
| `Reports.BelongsIff` | relay-metrics/src/aggregation.rs:956-1000 | `insert` files a metric under a key exactly if the key's interval covers its timestamp and name, unit, tags and type agree. |
| `Reports.GaugesMerge` | relay-metrics/src/aggregation.rs:35-61 | The merge of two gauges has the least, greatest and last value, the sum, and the number modulo 2^64 of all values that both were given. |
| `Reports.ReportsOne` | relay-metrics/src/aggregation.rs:501-515 | A bucket made from a single value reports just this value. |
| `Reports.ReportsConcat` | relay-metrics/src/aggregation.rs:522-558 | Combining buckets reports the values of both: sums, counts modulo 2^32, unions and gauge summaries. |
| `Reports.AggregatorReports` | relay-metrics/src/aggregation.rs:956-1000 | After any insertions, a key has a bucket exactly if some metric belongs to it, and the bucket sums up just the metrics that do. |
| `Reports.RunReports` | relay-metrics/src/aggregation.rs:956-1063 | In every run, what is delivered, dropped, in flight and held for a key reports just the submitted metrics that belong to it, up to gauges' last values. |
| `EnvelopeFormat.PayloadEnd` | relay-server/src/envelope.rs:943-962 | A payload ends in range, at a newline or the end of input, after its declared length, or before the first newline if none is declared. |
| `EnvelopeFormat.ParseItem` | relay-server/src/envelope.rs:927-966 | An item takes at least one byte and at most one more than there are. |
| `EnvelopeFormat.ParseItemIff` | relay-server/src/envelope.rs:927-973 | An item is parsed exactly if its header decodes and ends with a line or the input, and its payload has the declared length and ends with a line or the input, or without one is the rest of the line. |
| `EnvelopeFormat.ParseItemErrors` | relay-server/src/envelope.rs:927-973 | Which error is returned for a missing or invalid header, a line that does not end, and a payload that is too long. |
| `EnvelopeFormat.ParseHeadersIff` | relay-server/src/envelope.rs:897-913 | The envelope header is parsed exactly if it ends with a line or the input, with the error for each other case. |
| `EnvelopeFormat.ErrorsArePassedOn` | relay-server/src/envelope.rs:915-925 | The first item that is refused decides the error. |
| `EnvelopeFormat.ParseItemsFrom` | relay-server/src/envelope.rs:915-925 | The loop terminates, computes the recursive parse, and on success its offset ends at the length or one behind it, also when it starts one behind. |
| `EnvelopeFormat.ToVec` | relay-server/src/envelope.rs:871-895 | Writing piece by piece gives the serialized envelope. |
| `EnvelopeFormat.ItemRoundTrip` | relay-server/src/envelope.rs:927-966 | Parsing a serialized framed item, whatever follows, gives it back and consumes it exactly. |
| `EnvelopeFormat.EnvelopeRoundTrip` | relay-server/src/envelope.rs:871-966 | Parsing a serialized envelope of framed items gives back headers and items in order, but for the `rate_limited` flag. |
| `EnvelopeFormat.RoundTripIff` | relay-server/src/envelope.rs:871-966 | The round trip holds if and only if the headers of the envelope and of all items can be written unambiguously and every item is framed. |
| `EnvelopeFormat.ItemsWithoutLast` | relay-server/src/envelope.rs:927-973 | Items are all read also if the last newline is missing, or the last two if the last payload is empty. |
| `EnvelopeFormat.EnvelopeWithoutLast` | relay-server/src/envelope.rs:897-973 | So is every envelope that survives serialization. |
| `EnvelopeFormat.ParsedIsNotRateLimited` | relay-server/src/envelope.rs:348-357 | The internal flag is never read from the input. |
| `EnvelopeFormat.FrameTiles` | relay-server/src/envelope.rs:938-973 | A parsed item takes up its header, payload and newlines; only at the end of input may newlines be missing. |
| `EnvelopeFormat.ParseItemsTiles` | relay-server/src/envelope.rs:897-973 | Whatever the parser accepts is tiled by the frames of its items, in order, each with the declared length or without a newline. |
| `EnvelopeFormat.ParseBytesTiles` | relay-server/src/envelope.rs:897-973 | The whole accepted input is tiled by the header line and the frames of the items. |
| `EnvelopeFormat.ParseSerializeParse` | relay-server/src/envelope.rs:871-973 | Parsing, serializing and parsing again gives the first parse. |
| `Envelopes.ContentTypeRoundTrip` | relay-server/src/envelope.rs:160-212 | A content type made from any string is made again from its own name. |
| `Envelopes.ContentTypeNames` | relay-server/src/envelope.rs:179-206 | The names of the known content types, in any case; any other name is kept in lower case. |
| `Envelopes.BuiltIsFramed` | relay-server/src/envelope.rs:386-456 | An item changed in any way through its setters declares the length of its payload. |
| `Envelopes.BuiltPayload` | relay-server/src/envelope.rs:440-478 | A built item has the payload that was set last, cut to 2^32 - 1 bytes, and the flag that was set last. |
| `Envelopes.BuiltFields` | relay-server/src/envelope.rs:384-432 | A built item has its type, no timestamp, and the attachment type that was set last. |
| `Envelopes.BuiltFilename` | relay-server/src/envelope.rs:465-470 | A built item has the file name that was set last. |
| `Envelopes.BuiltRates` | relay-server/src/envelope.rs:481-490 | A built item has the sample rates that were set last to a list that is not empty, unless they were taken since. |
| `Envelopes.BuiltHeader` | relay-server/src/envelope.rs:509-515 | A built item has for every other attribute the value that was set last. |
| `Envelopes.BuiltIsPlain` | relay-server/src/envelope.rs:386-515 | A built header is unambiguous exactly if no attribute with the name of a field was set and the content type set last is one that its name stands for. |
| `Envelopes.BuiltRoundTrip` | relay-server/src/envelope.rs:386-966 | An envelope of built items, with arbitrary payload bytes, survives serialization, but for the `rate_limited` flag, if and only if its own headers can be written and every item was built with unambiguous headers. |
| `Envelopes.BuiltFails` | relay-server/src/envelope.rs:314-376 | An item with an additional attribute called `length`, or with `Other("text/plain")` as its content type, does not survive. |
| `Envelopes.FilterPartitions` | relay-server/src/envelope.rs:832-849 | Splitting by a condition loses and duplicates no item. |
| `Envelopes.FilterMembers` | relay-server/src/envelope.rs:832-849 | A split part has exactly the items that meet the condition. |
| `Envelopes.FilterConcat` | relay-server/src/envelope.rs:832-849 | The parts keep the order of the items. |
| `Envelopes.Position` | relay-server/src/envelope.rs:812-818 | The first item that meets the condition, if there is one. |
| `Envelopes.Envelope.AddItem` | relay-server/src/envelope.rs:821-823 | Appends the item. |
| `Envelopes.Envelope.TakeItemBy` | relay-server/src/envelope.rs:812-818 | Removes the first matching item, moves the last one into its place, and keeps all others. |
| `Envelopes.Envelope.SplitBy` | relay-server/src/envelope.rs:832-849 | Splits off the matching items in order under the same headers, unless one part would be empty. |
| `PiiRules.Collector.CollectRules` | relay-general/src/pii/compiledconfig.rs:43-86 | On an acyclic rule graph the recursion terminates and inserts what the specification `Collect` says. |
| `PiiRules.CompiledPiiConfig` | relay-general/src/pii/compiledconfig.rs:17-29 | The loops over applications and their rules compute `Compile`. |
| `PiiRules.AcyclicIffRanked` | relay-general/src/pii/compiledconfig.rs:43-86 | Rules can be ranked, so that the recursion terminates, exactly if no rule refers to itself directly or through others. |
| `PiiPaths.PathsAreComplete` | relay-general/src/pii/compiledconfig.rs:43-86 | The depth-first enumeration lists exactly the paths from a rule to a leaf. |
| `PiiPaths.RunStart` | relay-general/src/pii/compiledconfig.rs:58-86 | Where the longest unbroken run of hiding rules that ends at the last rule of a path starts. |
| `PiiPaths.RefOfRun` | relay-general/src/pii/compiledconfig.rs:97-118 | A reference's origin is the outermost rule of the hiding run, and its redaction the first one in the run that is not the default. |
| `PiiPaths.CollectKeepsLeaves` | relay-general/src/pii/compiledconfig.rs:43-86 | Only leaf rules are ever collected, so the pruning never cuts off a group. |
| `PiiPaths.CollectFoldsPaths` | relay-general/src/pii/compiledconfig.rs:43-86 | Despite pruning, collecting inserts the references of all paths in depth-first order, where the first one to a rule wins. |
| `PiiPaths.CompiledRefs` | relay-general/src/pii/compiledconfig.rs:16-29 | An application compiles to the references at the ends of its paths, the first one to a rule winning. |
| `PiiPaths.CompiledAreReachable` | relay-general/src/pii/compiledconfig.rs:16-86 | A rule is compiled for an application exactly if it is a leaf reachable from its list. |
| `PiiPaths.ApplicationsAreCompiled` | relay-general/src/pii/compiledconfig.rs:17-29 | Every application is compiled, in order, for its own selector, to just the leaf rules it reaches. |
| `PiiPaths.RulesFromMaps` | relay-general/src/pii/compiledconfig.rs:32-41 | A rule is known, refers to other rules and hides them as the custom rules say, or else the builtin ones; unknown ids refer to nothing. |
| `PiiPaths.PathsInOrder` | relay-general/src/pii/compiledconfig.rs:62-86 | Paths are listed depth first, in the order of the rules of a group. |
| `PiiPaths.CustomRulesShadow` | relay-general/src/pii/compiledconfig.rs:32-41 | Configurations compile to the same if they have the same rules once every builtin rule is replaced by the custom rule of the same id. |
| `PiiPaths.CompiledType` | relay-general/src/pii/compiledconfig.rs:32-41 | A compiled rule has the type that the custom rules say, or else the builtin ones. |
| `PiiPaths.OrderDoesNotMatter` | relay-general/src/pii/compiledconfig.rs:16-86 | Lists of the same rules compile to the same leaf rules. |
| `PiiPaths.CompiledMetadata` | relay-general/src/pii/compiledconfig.rs:58-118 | A compiled rule carries origin and redaction of the first path that leads to it. |
| `PiiPaths.CompiledHasPath` | relay-general/src/pii/compiledconfig.rs:43-86 | Every compiled rule has a first path that leads to it, so that its metadata is determined. |
| `PiiPaths.CachedIsUncached` | relay-general/src/pii/config.rs:220-230 | However many threads ask at once, each gets the uncached compilation. |
| `LazyCells.RunInv` | relay-common/src/cell.rs:53-72 | In every interleaving only the call that locked the cell fills it, and results are the stored value or the caller's own. |
| `LazyCells.FilledForever` | relay-common/src/cell.rs:53-72 | Once filled, the cell never changes. |
| `LazyCells.ResultsAreSound` | relay-common/src/cell.rs:53-72 | The unreachable arm is never taken; a call returns the stored value or its own. |
| `LazyCells.LateCallsBorrow` | relay-common/src/cell.rs:53-72 | A call that first looks at the cell when it is filled never computes anything and returns the stored value. |
| `LazyCells.OwnedLookedEarly` | relay-common/src/cell.rs:53-72 | A call that returns its own value looked at the cell before it was filled. |
| `LazyCells.ComputedIsReturned` | relay-common/src/cell.rs:53-72 | A call that computed its value returns it, whether or not it is the one stored. |
| `LazyCells.FillerBorrows` | relay-common/src/cell.rs:53-72 | The call that fills the cell returns a reference to the stored value. |
| `LazyCells.AgreeingClosures` | relay-common/src/cell.rs:53-72 | If the closures agree, every call returns their value. |
| `LazyCells.NoWaiting` | relay-common/src/cell.rs:53-72 | Each step of a call brings it closer to its result, and no step of another sets it back. |
| `LazyCells.ReturnsAfterSixSteps` | relay-common/src/cell.rs:53-72 | Every call returns after at most six steps of its own, whatever the others do. |
| `LazyCells.CachedInTheEnd` | relay-common/src/cell.rs:53-72 | When all calls have returned, the cell is filled. |
| `Quotas.ScopeConstraint` | relay-quotas/src/quota.rs:70-306 | A quota applies to an item exactly if it has no categories or the item's, and no scope constraint or one that stands for the organization id, project id or key id of the item as its scope says, with or without leading zeros and a plus sign. |
| `Quotas.DocumentationIsRight` | relay-quotas/src/quota.rs:277-302 | The documented match agrees with the actual one exactly for quotas without a constraint or with a numeric one. |
| `Decimals.ParseIff` | relay-quotas/src/quota.rs:292-297 | A text is parsed as a number exactly if it is its decimal form behind any zeros and perhaps a plus sign, and the number is in range. |
| `RateLimits.FromQuotaMatches` | relay-quotas/src/rate_limit.rs:115-179 | A limit made from a quota for an item matches this item exactly if the quota's categories do. |
| `RateLimits.LimitApplies` | relay-quotas/src/rate_limit.rs:167-179 | A limit applies exactly to items of its categories, or of all if it names none, in its organization, project or project key. |
| `RateLimits.FromQuotaCovers` | relay-quotas/src/rate_limit.rs:115-164 | A limit made from a quota has its categories and reason, and covers the scope's organization, project or project key, an unknown scope being taken for the key. |
| `RateLimits.LimitStaysWithinQuota` | relay-quotas/src/rate_limit.rs:115-179 | A limit made from a matching quota applies to other items only if the quota does, if a project key determines its key id. |
| `RateLimits.SortIsCanonical` | relay-quotas/src/rate_limit.rs:202-204 | Two category lists are sorted alike exactly if they are permutations. |
| `RateLimits.CategoryOrder` | relay-common/src/constants.rs:94-113 | The order of the categories. |
| `RateLimits.SortPair` | relay-quotas/src/rate_limit.rs:202-204 | Sorting is ascending in this order. |
| `RateLimits.AddedDistinct` | relay-quotas/src/rate_limit.rs:202-216 | Adding keeps stored keys of categories and scope pairwise distinct. |
| `RateLimits.AddedExactly` | relay-quotas/src/rate_limit.rs:202-216 | The stored limit of the same sorted categories and scope is replaced exactly if the new one lasts longer; if there is none the new one is appended; all others stay in place. |
| `RateLimits.AddedRestricts` | relay-quotas/src/rate_limit.rs:202-216 | Adding restricts an item exactly if it was restricted before or the new limit is active and matches. |
| `RateLimits.AddedAllCovers` | relay-quotas/src/rate_limit.rs:202-226 | Every added limit is covered by a stored one of the same categories and scope that lasts at least as long. |
| `RateLimits.AddedAllFrom` | relay-quotas/src/rate_limit.rs:202-226 | Every stored limit is one that was added, with its categories sorted. |
| `RateLimits.UnexpiredMembers` | relay-quotas/src/rate_limit.rs:239-241 | Cleaning keeps exactly the active limits. |
| `RateLimits.UnexpiredConcat` | relay-quotas/src/rate_limit.rs:239-241 | Cleaning keeps the order. |
| `RateLimits.CollectedDistinct` | relay-quotas/src/rate_limit.rs:202-241 | After any run, stored keys are pairwise distinct. |
| `RateLimits.CollectedRefinesLog` | relay-quotas/src/rate_limit.rs:202-241 | After any run, an item is restricted exactly if some limit ever added matches and is active. |
| `RateLimits.CheckMatches` | relay-quotas/src/rate_limit.rs:258-275 | Every limit that a check returns matches the item. |
| `RateLimits.StaticsComeFirst` | relay-quotas/src/rate_limit.rs:258-275 | A check lists the rejections of zero quotas first. |
| `RateLimits.CheckRefinesLog` | relay-quotas/src/rate_limit.rs:202-275 | After any run, a check is limited exactly if some matching limit ever added ends after now, or a matching quota of zero exists and an end 60 seconds from now can be represented. |
| `RateLimits.Collection.Add` | relay-quotas/src/rate_limit.rs:202-216 | Replaces the limit of the same categories and scope if the new one lasts longer, and appends it if there is none. |
| `RateLimits.Collection.Merge` | relay-quotas/src/rate_limit.rs:222-226 | Adds all limits one by one. |
| `RateLimits.Collection.CleanExpired` | relay-quotas/src/rate_limit.rs:239-241 | Keeps the active limits in their order. |
| `RateLimits.Collection.CheckWithQuotas` | relay-quotas/src/rate_limit.rs:258-275 | Collects the rejections of zero quotas and the matching limits. |
| `RedisKeys.ExpiryFollows` | relay-quotas/src/redis.rs:85-97 | A timestamp lies before its expiry, by no more than the window. |
| `RedisKeys.ExpiryFits` | relay-quotas/src/redis.rs:85-97 | No 64-bit operation overflows if timestamp, window and grace period add up to less than 2^64. |
| `RedisKeys.WindowsAreSpread` | relay-quotas/src/redis.rs:85-97 | Windows end at timestamps with the same remainder as the organization's id. |
| `RedisKeys.WindowsTile` | relay-quotas/src/redis.rs:85-97 | Timestamps share a slot exactly if they share an expiry, and a later slot starts no earlier than an earlier one ends. |
| `RedisKeys.CounterKeyInjective` | relay-quotas/src/redis.rs:99-115 | Counter keys are equal exactly if id, organization, subscope and slot are, whatever the id contains. |
| `RedisKeys.RefundKeysDiffer` | relay-quotas/src/redis.rs:31-33 | No refund key is a counter key. |
| `RedisKeys.KeyFormat` | relay-quotas/src/redis.rs:31-115 | The form of keys with and without a subscope, and of refund keys. |
| `RedisLimiter.Script` | relay-quotas/src/is_rate_limited.lua:30-65 | Reports for every quota whether it rejects, and increments all counters exactly if none does. |
| `RedisLimiter.TrackedProperties` | relay-quotas/src/redis.rs:66-97 | A tracked quota has the key and expiry of the item's window, which ends after the timestamp. |
| `RedisLimiter.TrackedIff` | relay-quotas/src/redis.rs:66-115 | Exactly the matching quotas with a limit other than zero, an id and a window are tracked, each under the key of the item's organization and the id of its scope. |
| `RedisLimiter.IncrementedIsCounted` | relay-quotas/src/is_rate_limited.lua:55-63 | On aligned keys and arguments the script counts the item against the tracked quotas. |
| `RedisLimiter.ScriptMeetsQuotas` | relay-quotas/src/redis.rs:188-231 | On aligned keys and arguments the i-th result tells whether the i-th tracked quota is exceeded. |
| `RedisLimiter.RedisRateLimiter.Prepare` | relay-quotas/src/redis.rs:176-212 | The loop collects zero-quota limits and keeps keys and arguments in line with the tracked quotas. |
| `RedisLimiter.RedisRateLimiter.Attribute` | relay-quotas/src/redis.rs:226-231 | Each rejection is attributed to its own quota. |
| `RedisLimiter.RedisRateLimiter.IsRateLimited` | relay-quotas/src/redis.rs:170-234 | The call returns and stores what `Decide` says of the quotas themselves. |
| `QuotaRuns.AllOrNothing` | relay-quotas/src/redis.rs:161-234 | A call is limited exactly if some quota does not let the item pass and the maximum limit is not zero; either no counter changes or all tracked ones do, with the exact condition. |
| `QuotaRuns.PassesIff` | relay-quotas/src/is_rate_limited.lua:37-53 | An item passes exactly if no matching quota has a limit of zero and for every tracked quota with a limit the counter, less the refunds, and the quantity stay within it. |
| `QuotaRuns.LimitsAreDeserved` | relay-quotas/src/redis.rs:182-231 | Every returned limit is that of a quota which rejects the item, and lasts at most as long as its window, or 60 seconds for a zero quota, and at most for the maximum limit. |
| `QuotaRuns.RejectionsAreAttributed` | relay-quotas/src/redis.rs:188-243 | Unless a zero quota came first, each exceeded quota has a limit for its own categories and scope that lasts at least to the end of its window or for the maximum limit, whichever is less. |
| `QuotaRuns.ZeroQuotasBlock` | relay-quotas/src/redis.rs:182-190 | Each matching zero quota has a limit for its categories and scope that lasts at least 60 seconds or the maximum limit, whichever is less. |
| `QuotaRuns.ZeroQuotaCountsNothing` | relay-quotas/src/redis.rs:176-234 | With a matching zero quota the counters stay unchanged exactly if the maximum limit is not zero, nothing is tracked, or some tracked quota is exceeded. |
| `QuotaRuns.DelayBounds` | relay-quotas/src/redis.rs:182-243 | Unless the maximum limit is zero or an end cannot be represented, every returned limit lasts for a positive time, at most the maximum limit and at most the window of a rejecting quota, or 60 seconds for a zero quota. |
| `QuotaRuns.KeyDeterminesWindow` | relay-quotas/src/redis.rs:85-115 | Two counter keys are equal exactly if id, organization, subscope and slot are; then quotas with the same window length share the end of the window. |
| `QuotaRuns.NextKeepsInv` | relay-quotas/src/redis.rs:161-234 | Every call, with its own quotas and clock, and every discarded counter keeps the live counter in line with what was accepted, within its limit. |
| `QuotaRuns.LedgerIsAccepted` | relay-quotas/src/redis.rs:161-234 | The ledger holds the total quantity of the accepted items per counter. |
| `QuotaRuns.CounterLimitHolds` | relay-quotas/src/redis.rs:161-234 | Over every run, by callers whose clocks are at most the grace period behind the clock of Redis, the quantity accepted against a counter stays within the limit of its calls. |
| `QuotaRuns.LimitsHold` | relay-quotas/src/redis.rs:161-234 | Over every run of calls that each pass their own quotas, the quantity accepted in a window of a quota stays within its limit, if the calls that count under its id in its scope agree on the window length and have no higher limit. |
| `QuotaRuns.AcceptsIff` | relay-quotas/src/redis.rs:161-234 | Limits are used up: after any run, an item is accepted exactly if no matching quota has a limit of zero and what was accepted so far in the window of each tracked quota and the quantity stay within its limit. |
| `MetricParser.ParseTagList` | relay-metrics/src/protocol.rs:285-296 | The loop over tags computes the map in which later tags replace earlier ones. |
| `MetricParser.ParseMetric` | relay-metrics/src/protocol.rs:403-425 | The loop over components computes the metric, where each list of tags replaces the one before. |
| `MetricParser.ParseAllConcat` | relay-metrics/src/protocol.rs:468-513 | The results of two texts joined by a newline are those of the one and then those of the other, for all bytes. |
| `MetricParser.ParseMetrics.Next` | relay-metrics/src/protocol.rs:490-513 | The iterator yields the results of splitting into lines, one by one. |
| `MetricPrinter.MetricRoundTrip` | relay-metrics/src/protocol.rs:298-425 | Parsing a metric written in the documented format gives it back. |
| `MetricPrinter.ParseShowParse` | relay-metrics/src/protocol.rs:215-425 | Whatever line the parser accepts, its metric can be written in the documented format and is read back the same. |
| `MetricPrinter.LineRoundTrip` | relay-metrics/src/protocol.rs:403-513 | So does parsing its encoded line, to exactly one result. |
| `MetricPrinter.SubmissionRoundTrip` | relay-metrics/src/protocol.rs:445-513 | Metrics written line by line are all read back in order. |
| `MetricPrinter.NaturalsReadBack` | relay-metrics/src/protocol.rs:257-270 | The demands on the text form of numbers can be met: decimal natural numbers do. |
| `MetricGrammar.TypeTable` | relay-metrics/src/protocol.rs:185-197 | The accepted texts of every metric type. |
| `MetricGrammar.UnitTable` | relay-metrics/src/protocol.rs:76-88 | The accepted texts of every unit. |
| `MetricGrammar.NameChars` | relay-metrics/src/protocol.rs:215-223 | Exactly which characters a name consists of. |
| `MetricGrammar.NameUnitIff` | relay-metrics/src/protocol.rs:229-243 | A name and unit are parsed exactly from the name alone, or followed by `@`, the unit, and perhaps another `@` and anything. |
| `MetricGrammar.ValueTable` | relay-metrics/src/protocol.rs:257-268 | Numbers are read as they are; a set value that is no 32-bit number is hashed. |
| `MetricGrammar.TagsConcat` | relay-metrics/src/protocol.rs:285-296 | Later tags replace earlier ones. |
| `MetricGrammar.SingleTag` | relay-metrics/src/protocol.rs:285-296 | A tag has the value behind its first colon, or an empty one. |
| `MetricGrammar.FurtherComponent` | relay-metrics/src/protocol.rs:418-423 | A further component with a hash sign replaces all tags; any other one is ignored. |
| `MetricGrammar.BasicLine` | relay-metrics/src/protocol.rs:403-425 | What a line of name, value and type stands for, and when it is refused. |
| `MetricGrammar.NoMetric` | relay-metrics/src/protocol.rs:403-425 | A line without a type, or without a colon in front of it, is refused. |
| `MetricGrammar.LineResults` | relay-metrics/src/protocol.rs:490-513 | A line gives one result unless it is blank; undecodable bytes fail. |
| `MetricGrammar.ReturnIgnored` | relay-metrics/src/protocol.rs:503-506 | One carriage return at the end of a line is ignored. |
| `Registration.FramingIsUnambiguous` | relay-auth/src/lib.rs:201-206 | Framed messages of headers without NUL are equal only if headers and data are. |
| `Registration.TextForms` | relay-auth/src/lib.rs:201-456 | What is signed and authenticated, and the order of the parts in signature texts and tokens. |
| `Registration.VerifyMetaIff` | relay-auth/src/lib.rs:292-316 | A signature text is verified exactly if it consists of a well-formed signature and a header for which it is valid. |
| `Registration.SignedVerifies` | relay-auth/src/lib.rs:201-316 | Signed data verifies and yields its header. |
| `Registration.VerifiedIffSigned` | relay-auth/src/lib.rs:201-316 | For an honest key, some text that may be around verifies with a header for some data exactly if the holder signed that header and data. |
| `Registration.StateRoundTrip` | relay-auth/src/lib.rs:446-498 | An own token unpacks to its state until it is too old, counted from its whole second. |
| `Registration.TokenErrors` | relay-auth/src/lib.rs:474-498 | Why a token is refused, in the order of the checks. |
| `Registration.TokenParts` | relay-auth/src/lib.rs:460-463 | A token is split at its first colon; without one the code is empty. |
| `Registration.ProtocolErrors` | relay-auth/src/lib.rs:573-669 | Why requests and responses are refused, in the order of the checks. |
| `Registration.UnpackedIffIssued` | relay-auth/src/lib.rs:446-498 | Some token that may be around unpacks with a kept secret to a state exactly if the holder of the secret issued it and it is not too old. |
| `Registration.OwnCodeIsUnforged` | relay-auth/src/lib.rs:446-456 | Attackers may send tokens that they authenticated with a secret of their own. |
| `Registration.HonestIsEnabled` | relay-auth/src/lib.rs:626-633 | Honest relays may send the signed response to a challenge. |
| `Registration.HonestRequest` | relay-auth/src/lib.rs:573-582 | A self-signed request is accepted until its signature expires. |
| `Registration.HonestResponse` | relay-auth/src/lib.rs:651-669 | A response with an own token, signed by the key in it, is accepted until token or signature expires, whatever relay id it names. |
| `Registration.HonestRun` | relay-auth/src/lib.rs:573-669 | An honest run registers the original id and key exactly if the request and the response arrive in time. |
| `Registration.NextKeepsInv` | relay-auth/src/lib.rs:573-669 | Every step, whatever is received by whomever, keeps tokens tied to requests that were signed before and not expired by their own header, and registrations with a kept secret tied to tokens. |
| `Registration.RegisteredIsAuthentic` | relay-auth/src/lib.rs:138-669 | In every run with attackers who use keys and secrets of their own, a registration with a kept secret goes back to a token that its holder issued for a request with this id and key, at most the maximum age ago; an honest key's holder signed both request and response before, and neither signature was expired by its own header. |
| `Registration.RegisteredIsRecent` | relay-auth/src/lib.rs:138-199 | If that holder puts the current time into its headers, as `sign` does, request and response were signed no longer before they were received than the maximum age. |
| `Registration.UntimedNeverExpires` | relay-auth/src/lib.rs:138-144 | A request signed without a time in the header is accepted at any time, for any maximum age. |

## Left out

- Floating point rounding, NaN and the bit order of `FloatOrd`: numbers are reals, so sums are exact.
- Bucket values are values in the bucket map and items are values in an envelope, so aliasing of the objects that the source updates in place is not captured.
- PreAggregationGivesSameBuckets: needs the samples of every key to fit into 32 bits; beyond that, a value whose count wrapped around to 0 may be listed in one map and missing in the other, and only what buckets report is the same (`PreAggregationPreservesMeaning`).
- MergeIn: requires that the flush time of a new bucket can be represented, as do `Insert`, `Merge` and `MergeAll`, since the source panics otherwise; `FlushSchedule.FlushTimePanics` says when.
- Merge: requires that the length of a merged distribution is in line with its counts, as does `MergeAll`; the fields are private in the source, and `FromSamplesBalanced`, `InsertedBalanced` and `MergeBalanced` show it of everything that makes distributions.
- The heap of the flush queue is a multiset from which some earliest entry is popped, not a binary heap.
- CollectRules: requires a rank function, which exists exactly for rule graphs without cycles (`AcyclicIffRanked`); the source's recursion does not end on a cycle.
- All rule types other than groups and aliases are one constructor, `Matcher`; matching and scrubbing text is not modelled.
- Windows of length zero and timestamps before an organization's shift of a tracked quota are excluded by `WindowsValid`; the source divides by zero or wraps around there. Expiries beyond 64 bits do not wrap around in the model; `RedisKeys.ExpiryFits` says when there are none.
- LimitsHold: covers runs without refunds and with nonzero maximum limits, whose limits end at instants that can be represented; with a maximum limit of zero nothing is ever limited (`AllOrNothing`). The script runs atomically, and no list counts an item twice under the quota's id.
- Times in `Registration` are unbounded; the range checks of `chrono` and the `i64` cast of timestamps are not modelled.
- Signatures and codes in `Registration` are symbolic: attackers replay and recombine what they have seen and use keys and secrets of their own, but do not forge those of others. Key parsing and generation are left out.
- JSON, UTF-8, base64, hashing and the text of numbers are parameters with stated laws; decoding errors inside them are opaque.
- `Envelope::parse_request` and `EnvelopeHeaders::complete`, `creates_event`, `requires_event`, `retain_items` and lookups: they would only add easy members.
- `Quota::is_valid`, `RateLimits::longest`, parsing and printing of `RetryAfter` and scope names: they would only add easy members.
- Actors, HTTP, the Redis connection, statsd, logging, the command line, the C interface, `relay-filter` and `relay-sampling`.
