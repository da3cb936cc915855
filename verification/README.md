# Verified model of grib-cpp

grib-cpp fetches one GRIB record out of a large file: it parses a sidecar index, requests a byte range,
checks the reply, frames the message and decodes it. This project models the logic of that pipeline, of the
rate limiter and of the retry wrapper around it, and proves what they promise for all inputs, all runs and
all interleavings.

Verify everything with `dafny verify dfyconfig.toml` (Dafny 4.11).

## Layout

| file | contents |
|---|---|
| `Basics.dfy`, `Text.dfy` | machine integers, C++ division; find, split, decimal printing, `from_chars` |
| `TokenBucket.dfy` | the limiter's arithmetic on values, and the exact conservation of its credit |
| `BucketRuns.dfy` | serial histories of critical sections and the rate bound on them |
| `ContinuousBucket.dfy` | the real-valued token bucket, and the refinement of it by the integer one |
| `Acquisition.dfy` | the blocking loop on values: deadlines, total sleep, exact waits, progress |
| `RateLimiter.dfy` | the `RateLimiter` class on 64-bit and 16-bit integers |
| `RateSystem.dfy` | any number of threads sharing one limiter, as a transition system |
| `Framing.dfy`, `FramingStreams.dfy` | `find_message` and what repeated `next()` calls frame in streams |
| `MemberSearch.dfy` | the `GribFile` class, `from_bytes` and the search for an ensemble member |
| `Sidecar.dfy`, `NomadsRoundTrip.dfy`, `EcmwfIndex.dfy` | both index parsers, selection, the round trip |
| `ResponseSink.dfy`, `HttpRange.dfy` | collecting a reply; the range request and its validation |
| `EndToEnd.dfy` | from a printed index of either kind to a framed message, through a server that honours ranges |
| `DecodeGuard.dfy` | the first-decode guard over any number of threads |
| `Ownership.dfy` | the `GribHandle` class and the ownership of foreign resources over all runs |
| `Retry.dfy` | backoff and the retry loop |

## How the model reads the source

- Each method of a class or loop of the source is a Dafny method proved equal to a specification function;
  the lemmas are about those functions.
- Every clock reading is a parameter: nanoseconds since the clock's epoch, between 0 and 2^63-1, never
  decreasing in lock order. `RateLimiter.Limiter` computes on 64-bit integers, so its verified bodies are also
  the proof that no clock computation overflows.
- The blocking loop takes its turns from a finite list: what other threads did since the last turn, and the
  three clock readings of the turn. The loop itself has no bound; a list that ends early gives `StillWaiting`.
- `HttpClient::perform` is an arbitrary function from the range text to a reply; JSON reading, decoding and a
  handle's point lookup are arbitrary functions too. Only the end-to-end theorems put a server, its transport and
  the collecting callbacks in its place. Errors are their codes, without messages.
- Text is sequences of characters, GRIB data sequences of bytes. Doubles are reals; in the retry policy and in
  JSON they may also be a value that is not finite.

## Where the code is not quite what one would expect

- `acquire_for(w)` can sleep longer than `w`, and does so exactly when `w` equals the whole milliseconds left
  on the clock and a fraction of one is left as well: the deadline is then the clock's last instant
  (`Acquisition.OversleepsIffEdge`).
- A blocked caller can wait in vain, with nobody interfering, exactly when the refill interval exceeds the
  longest duration the clock can represent (`Acquisition.VainIffIntervalTooLong`).
- The wait of a refused caller is exact to the nanosecond exactly when the refill interval is below the clock's longest
  duration in whole milliseconds (`Acquisition.WaitIsExactIff`).
- With `max_attempts` 0, `with_retry` never calls the operation and returns its trailing error; with 1 to 255
  that error is unreachable (`Retry.WithRetry`).
- A stream cut inside a message is reported Invalid only if the four marker bytes were kept; with fewer the
  code reports the end, unless the cut left a marker in the gap without its edition
  (`FramingStreams.TruncationIsDetected`).
- Bytes between messages may contain "GRIB": a marker of another edition is passed over. After the last message a
  marker with fewer than eight bytes left is reported Invalid (`FramingStreams.FramingRoundTrip`).
- `sidecar.hpp` says that each field of a selector must equal the entry's field; the code, and the comment on
  `select`, match by substring, so a selector for "6 hour fcst" also selects "36 hour fcst"
  (`Sidecar.SixSelectsThirtySix`). The two readings agree on all entries exactly when none of the three texts is
  set (`Sidecar.SubstringIsEqualityIff`).
- `parse_nomads_idx` strips one carriage return per line. Changing every LF of a text to CRLF changes the parse
  exactly when the text is accepted and one of its inventory lines already ended in a carriage return
  (`NomadsRoundTrip.CrlfChangesNothingIff`), as in `NomadsRoundTrip.CrlfChangesThisIndex`.
- `get_range` reads the range unit `bytes` in lower case only, though names of units are case-insensitive: a reply
  with `Bytes 0-4/5` is refused (`HttpRange.CapitalUnitIsRefused`). Of the replies that deliver the range by
  section 14.4 of RFC 9110, it accepts exactly those with the lower-case unit and numbers below 2^64
  (`HttpRange.DeliveredIsAcceptedIff`).
- An ECMWF entry with `_length` 0 is accepted and fetches everything from its offset to the end of the file
  (`EndToEnd.JsonEntryFetch`).

## Model

| member | source | states |
|---|---|---|
| TokenBucket.SanitizedIsSane | src/core/rate_limit.cpp:9-16 | any configuration becomes a sane one: a non-positive interval is 100 ms, capacity 0 is 1, initial tokens are cut to the capacity; sane ones are untouched |
| TokenBucket.RefillIsCanonical | src/core/rate_limit.cpp:22-42 | in every branch a refill leaves the one bucket that stands for the same credit, so truncation and carried remainders lose nothing |
| TokenBucket.PollingIsInvisible | src/core/rate_limit.cpp:22-42 | refilling at t1 and then t2 equals refilling at t2 alone; `available_tokens` is what a refill at that instant would leave |
| TokenBucket.AvailableIsRefilled | src/core/rate_limit.cpp:94-102 | the reported tokens are those of a refilled bucket |
| TokenBucket.TakeCostsOneInterval | src/core/rate_limit.cpp:44-56 | an attempt is granted iff one interval of credit is there, and costs exactly one interval |
| BucketRuns.RunBalance | src/core/rate_limit.cpp:22-108 | over any history, grants and remaining credit never exceed starting credit, elapsed time and what resets hand out |
| BucketRuns.RateBound | src/core/rate_limit.cpp:22-108 | grants on a stretch of history are at most capacity + whole intervals elapsed + resets times initial tokens |
| ContinuousBucket.TakeIffLevel | src/core/rate_limit.cpp:44-56 | with level = min(max, tokens + elapsed/interval), a take succeeds iff level >= 1 and lowers it by exactly 1 |
| ContinuousBucket.AvailableIsFloor | src/core/rate_limit.cpp:94-102 | `available_tokens` is the real level rounded down |
| ContinuousBucket.RunRefines | src/core/rate_limit.cpp:22-108 | every run of takes, polls and resets gives exactly the replies of the continuous bucket and ends at its level |
| ContinuousBucket.LimiterRefines | src/core/rate_limit.cpp:9-20 | the same from construction, for any configuration passed in |
| Acquisition.TotalSleep | src/core/rate_limit.cpp:77-92 | with a deadline, all sleeps asked for fit between the first attempt and the deadline |
| Acquisition.DeadlineIsWait | src/core/rate_limit.cpp:67-75 | the deadline is never in the past, is exactly the caller's wait away except at the clock's edge, and is the clock's last instant for every wait beyond it |
| Acquisition.OversleepsIffEdge | src/core/rate_limit.cpp:67-92 | some call of `acquire_for(w)`, on a limiter in any state, sleeps longer than max(w, 0) iff w is the whole milliseconds left and a fraction remains |
| Acquisition.SecondAttemptSucceeds | src/core/rate_limit.cpp:44-92 | with no deadline and no interference, `acquire` succeeds by its second attempt |
| Acquisition.VainIffIntervalTooLong | src/core/rate_limit.cpp:44-56 | a full wait without interference can end in another refusal iff the interval does not fit the clock |
| Acquisition.WaitEndsAt | src/core/rate_limit.cpp:44-56 | a refused thread may wake one interval after the last refill, or after the clock's longest duration when the interval is no shorter, and never waits a negative time |
| Acquisition.WaitIsExact | src/core/rate_limit.cpp:44-56 | a second undisturbed attempt gets a token iff the thread slept for the wait it was given, not less and not longer, for every interval below the clock's span in whole milliseconds |
| Acquisition.WaitIsExactIff | src/core/rate_limit.cpp:44-56 | waits are exact in every state iff the interval is below that span |
| Acquisition.TimesOutIffNoToken | src/core/rate_limit.cpp:67-92 | an undisturbed call whose readings of one attempt coincide times out iff no token is there by its deadline, and otherwise acquires one |
| Acquisition.AcquireIsSerial | src/core/rate_limit.cpp:77-92 | a blocking call is a series of takes among everybody's critical sections: all but the last are refused and followed by the sleep given, it returns true iff the last is granted, false iff the last is refused with a wait beyond the deadline |
| RateLimiter.Limiter.constructor | src/core/rate_limit.cpp:19-20 | a new limiter holds the initial tokens at the reading of its creation |
| RateLimiter.Limiter.Refill | src/core/rate_limit.cpp:22-42 | the fields become the refilled bucket, with every intermediate value in 64 bits |
| RateLimiter.Limiter.TakeOrWaitTime | src/core/rate_limit.cpp:44-56 | takes a token iff the specification grants one; otherwise no token is left and the wait, never negative, ends exactly one interval after the last refill, or the clock's longest duration after it |
| RateLimiter.Limiter.TryAcquire | src/core/rate_limit.cpp:58-61 | result and new state are those of one take |
| RateLimiter.Limiter.AvailableTokens | src/core/rate_limit.cpp:94-102 | reads without changing anything what a refill would leave |
| RateLimiter.Limiter.Reset | src/core/rate_limit.cpp:104-108 | the state becomes that of a new limiter |
| RateLimiter.Limiter.AcquireUntil | src/core/rate_limit.cpp:77-92 | outcome, sleeps and final state are those of the loop's specification, interference included |
| RateLimiter.Limiter.AcquireFor | src/core/rate_limit.cpp:67-75 | waits against the deadline computed without overflow from now and the wait |
| RateLimiter.Limiter.Acquire | src/core/rate_limit.cpp:63-65 | uses the configured maximum wait when there is one |
| RateLimiter.RefillFits | src/core/rate_limit.cpp:28-41 | earned intervals, their milliseconds and the advanced time all fit the clock |
| RateSystem.NextKeepsInv | src/core/rate_limit.cpp:44-108 | every step of any thread keeps the shared bucket equal to the serial run of its history, and what sleepers know |
| RateSystem.RateBoundOverRuns | src/core/rate_limit.cpp:22-108 | in any run of any threads, grants between two critical sections, both included, obey the rate bound |
| RateSystem.ThreadsActOnReplies | src/core/rate_limit.cpp:44-108 | what each thread is told in its critical section is one bucket's reply to the history: attempts return iff granted, `try_acquire` iff the bucket pays, polls get the refilled count |
| RateSystem.ConcurrentRunsRefine | src/core/rate_limit.cpp:22-108 | what all threads were told, in lock order, are the replies of one continuous bucket |
| RateSystem.RefusedAgainMeansInterference | src/core/rate_limit.cpp:44-92 | an attempt refused again after its sleep means a grant or a reset was recorded since the previous attempt |
| RateSystem.BlockedThreadSteps | src/core/rate_limit.cpp:63-92 | in any run a blocked thread keeps its deadline, is refused with an exact wait, gives up iff it has a deadline and the wait exceeds what is left at that reading, and otherwise sleeps just that wait and tries again; no other thread moves |
| Framing.EncodeDecode | src/decode/handle.cpp:67-75 | big-endian decoding undoes encoding for every number that fits the width |
| Framing.MessageBytes | src/decode/handle.cpp:56-84 | a whole message, byte by byte: GRIB, edition 1 or 2, its own length in three or eight big-endian bytes, at least 12 or 20 bytes, and four 0x37 at the end |
| Framing.DecodeLength | src/decode/handle.cpp:67-75 | the shift-and-or loop computes the big-endian number without losing bits |
| Framing.FindMessage | src/decode/handle.cpp:53-91 | the scanning loop computes the scan specification |
| Framing.ScanDescribes | src/decode/handle.cpp:53-91 | the scan stops at the first committing marker and reports Found iff a whole well-formed message starts there, End iff there is no such marker |
| Framing.ScanIsDetermined | src/decode/handle.cpp:53-91 | that description holds of the scan's answer and of no other |
| FramingStreams.FramingRoundTrip | src/decode/handle.cpp:278-294 | well-formed messages with bytes before, between and after them are framed exactly and in order, then End for ever, iff no gap holds a marker that commits the scan |
| FramingStreams.FramedBytes | src/decode/handle.cpp:278-294 | the framed spans hold the messages byte for byte |
| FramingStreams.QuietIffUndecided | src/decode/handle.cpp:56-80 | before a message the scan commits nowhere in a gap iff no marker in it has edition 1 or 2; the edition may be looked up inside the message's own marker |
| FramingStreams.NoMarkerStraddles | src/decode/handle.cpp:56-57 | a marker cannot straddle a gap and what starts like a message |
| FramingStreams.TruncationIsDetected | src/decode/handle.cpp:53-91 | a cut stream gives its whole messages and then Invalid on every call, or End when fewer than four bytes of the cut one remain and no marker in the gap was cut |
| FramingStreams.FoundIsStable | src/decode/handle.cpp:53-91 | appending bytes never changes a Found answer |
| FramingStreams.SpansAreDisjoint | src/decode/handle.cpp:278-289 | framed spans are in bounds, increasing, disjoint and at least 12 bytes; a call that frames nothing repeats for ever |
| FramingStreams.WrittenIsWellFormed | src/decode/handle.cpp:61-84 | written edition 1 and 2 messages are well formed |
| FramingStreams.WellFormedIsWritten | src/decode/handle.cpp:61-84 | well-formed messages are exactly the written ones |
| MemberSearch.GribFile.Open | src/decode/handle.cpp:269-276 | a new cursor stands at the start of its copy |
| MemberSearch.GribFile.Next | src/decode/handle.cpp:278-294 | the cursor passes a found message even when decoding fails, and stays put otherwise |
| MemberSearch.FromBytes | src/decode/handle.cpp:125-140 | gives the handle of the first framed message, or a decode error |
| MemberSearch.FirstNextIsFromBytes | src/decode/handle.cpp:125-140 | `from_bytes` and the first `next()` on the same bytes agree |
| MemberSearch.MessagesAreCalls | src/decode/handle.cpp:278-294 | the messages of a buffer are what successive calls frame, one for one |
| MemberSearch.StreamMessages | src/decode/handle.cpp:278-294 | the messages of a stream are those it was made of, in order |
| MemberSearch.ExtractPointMember | src/api/extract.cpp:38-68 | the loop terminates with the result of the search over the buffer's messages |
| MemberSearch.SearchFindsFirstMatch | src/api/extract.cpp:44-66 | the first message whose perturbationNumber, else number, else -1 is the member gives its value, if all earlier ones decode to other members |
| MemberSearch.SearchFailsWithoutMatch | src/api/extract.cpp:44-67 | without such a message the search is a decode error |
| MemberSearch.SearchOverStream | src/api/extract.cpp:38-68 | on a stream of well-formed messages the search looks at exactly those messages |
| Text.SplitLoop | src/models/sidecar.cpp:19-32 | the splitting loop computes the split specification |
| Text.JoinOfSplit | src/models/sidecar.cpp:19-32 | pieces are free of the delimiter and join back to the text |
| Text.SplitOfJoin | src/models/sidecar.cpp:19-32 | delimiter-free pieces are recovered from their join |
| Text.ToU64Exact | src/models/sidecar.cpp:34-37 | accepted iff a non-empty digit string below 2^64, with the number it denotes |
| Text.ValueOfConcat | src/models/sidecar.cpp:34-37 | what digits denote is positional, the most significant first |
| Sidecar.ParseNomadsMember | src/models/sidecar.cpp:42-65 | the digit loop computes the member specification |
| Sidecar.MemberIsNamed | src/models/sidecar.cpp:39-65 | any text gives member k >= 0 iff its first `ENS=` is followed by a control and k is 0, or by an optional plus and the digits of k up to 2^31-1; otherwise -1 |
| Sidecar.LineIsRefusedIff | src/models/sidecar.cpp:114-136 | a line is skipped iff it has fewer than six fields, refused iff record or offset is not a number in range |
| Sidecar.ParseNomadsIdx | src/models/sidecar.cpp:110-159 | both passes compute the parse specification |
| Sidecar.AssignLengths | src/models/sidecar.cpp:151-158 | lengths patched in place are the distances to the next offset, or offsets do not increase |
| Sidecar.AcceptedIff | src/models/sidecar.cpp:114-149 | collecting entries fails iff some line is refused |
| Sidecar.EntryOfLine | src/models/sidecar.cpp:114-148 | a line becomes the entry of its fields: first the record number, second the offset, fourth to sixth parameter, level and step, the member from all of the text behind, the raw line without its carriage return |
| Sidecar.EntriesFollowInventory | src/models/sidecar.cpp:114-149 | accepted lines with six fields or more give one entry each, in order, and other lines none |
| Sidecar.EntriesTile | src/models/sidecar.cpp:151-157 | accepted entries tile the file: positive disjoint ranges that sum to the distance from first to last offset |
| Sidecar.Select | src/models/sidecar.cpp:233-252 | the loop keeps, as often as they occur, exactly the entries in whose fields every set text occurs at some position and whose member is the one that is set |
| Sidecar.SixSelectsThirtySix | src/models/sidecar.cpp:233-252 | a selector for step 6 also selects step 36 |
| Sidecar.SubstringIsEqualityIff | src/models/sidecar.cpp:233-252 | substring matching selects the same entries as equality iff param, level and step are unset |
| Sidecar.SelectionIsExact | src/models/sidecar.cpp:233-252 | an entry is kept as often as it occurs if every set text occurs in its field and a set member is its own, and is dropped otherwise |
| Sidecar.TmpRefusesPrmsl | src/models/sidecar.cpp:233-240 | a selector for the parameter TMP refuses every entry for PRMSL |
| Sidecar.SelectionKeepsOrder | src/models/sidecar.cpp:233-252 | selection distributes over concatenation, so order is kept |
| NomadsRoundTrip.TagReadsBack | src/models/sidecar.cpp:39-65 | a printed tag reads back as its member: 0 for controls, k for `ENS=+k` up to 2^31-1, -1 otherwise |
| NomadsRoundTrip.LineReadsBack | src/models/sidecar.cpp:114-148 | a printed line reads back as its record, with or without a carriage return |
| NomadsRoundTrip.PrintThenParse | src/models/sidecar.cpp:110-159 | a printed index, with or without a last separator on each line, parses iff offsets strictly increase, and then every field, offset, length and member comes back, LF or CRLF |
| NomadsRoundTrip.LineWithCr | src/models/sidecar.cpp:114-149 | one carriage return more never changes a line's kind or place, and changes its entry iff the line ended in one already |
| NomadsRoundTrip.CrlfChangesNothingIff | src/models/sidecar.cpp:110-159 | any text parses the same with CRLF line ends iff it is refused or none of its inventory lines before a line feed ends in a carriage return |
| NomadsRoundTrip.CrlfTwiceChangesIndex | src/models/sidecar.cpp:110-159 | a printed index with CRLF line ends is always changed by another conversion |
| NomadsRoundTrip.CrlfChangesThisIndex | src/models/sidecar.cpp:110-159 | one concrete index that a conversion changes |
| EcmwfIndex.ExactMeansUnchanged | src/models/sidecar.cpp:86-102 | numbers convert without changing their value, and exactly the natural numbers convert (reals only below 2^53) |
| EcmwfIndex.RangeIsExact | src/models/sidecar.cpp:183-193 | a line's range is accepted iff both numbers are exact and its last byte has a 64-bit position |
| EcmwfIndex.MemberIsNumber | src/models/sidecar.cpp:210-227 | control is member 0, otherwise the number field, as text or number, comes back unchanged |
| EcmwfIndex.WholeIntIs | src/models/sidecar.cpp:217-226 | any text that is a 32-bit int in decimal is read as that int, with or without a minus or leading zeros; every other text is read as -1 |
| EcmwfIndex.JsonLineIsRefusedIff | src/models/sidecar.cpp:165-193 | a line is skipped iff blank, refused iff it is no object with an exact range inside 64 bits |
| EcmwfIndex.ParseEcmwfIndex | src/models/sidecar.cpp:161-231 | the loop computes the parse specification, and succeeds iff every line that is not blank is an object with such a range |
| EcmwfIndex.EntriesFollowLines | src/models/sidecar.cpp:161-231 | an accepted index has one entry per line that is not blank, in order, with the range, parameter, level, step, member and text of that line: strings as they are, numbers by their digits, anything else blank |
| EcmwfIndex.PrintThenParseJson | src/models/sidecar.cpp:161-231 | for any reader that inverts a printer of objects: printed products, with fields as strings or numbers, are accepted iff all their ranges fit 64 bits, and then param, level, step, offset, length and member come back in order, LF or CRLF |
| EcmwfIndex.EntriesAreUsable | src/models/sidecar.cpp:190-193 | an entry of either index ends within 64-bit positions, which is what `get_range` checks before it asks the server |
| ResponseSink.Sink.WriteCallback | src/http/client.cpp:54-71 | an overflowing size takes nothing; otherwise the chunk is appended whole if it fits the limit, and refused whole with the overflow noted if it does not |
| ResponseSink.Sink.HeaderCallback | src/http/client.cpp:73-99 | an overflowing size takes nothing; otherwise a status line clears the headers and a line with a colon adds one trimmed pair |
| ResponseSink.LineAdds | src/http/client.cpp:85-94 | a line without a colon adds nothing; otherwise the text before the first colon and the rest without its surrounding blanks, later colons included |
| ResponseSink.DeliveredIffFits | src/http/client.cpp:54-71 | however a body is cut into chunks, all of it arrives iff it fits the limit |
| ResponseSink.OnlyLastResponseCounts | src/http/client.cpp:82-84 | headers collected before the last status line never reach the reply |
| ResponseSink.WireRoundTrip | src/http/client.cpp:73-99 | after any earlier responses and with the blank line at the end, the collected headers are those sent with the last one, in order |
| HttpRange.LastIsExact | src/http/client.cpp:196-202 | the wrapping `offset + length - 1` is the true last position whenever the overflow check passes |
| HttpRange.FindContentRange | src/http/client.cpp:209-220 | the header loop computes the specification of the value used |
| HttpRange.NameIsAnyCase | src/http/client.cpp:211-219 | a header is taken iff each of its characters is that of content-range or its capital |
| HttpRange.LastContentRangeIs | src/http/client.cpp:209-220 | on any headers that value is the one of the last Content-Range header in any letter case, or empty when there is none |
| HttpRange.ValidatePartial | src/http/client.cpp:224-255 | the validating code computes the parse and the checks |
| HttpRange.GetRange | src/http/client.cpp:194-258 | the request and the handling of each kind of reply are those specified |
| HttpRange.ParserIsGrammar | src/http/client.cpp:224-252 | the parser gives a range iff the value is a range-resp of the grammar in section 14.4 of RFC 9110 denoting it, with the unit `bytes` in lower case and all numbers below 2^64 |
| HttpRange.GrammarIsReadIff | src/http/client.cpp:224-252 | of all values of that grammar, any unit, unsatisfied ranges and numerals of any size included, exactly those are read, as what they denote |
| HttpRange.CapitalUnitIsRefused | src/http/client.cpp:224-226 | `Bytes 0-4/5` is a byte range of the grammar and is refused |
| HttpRange.UnsatisfiedIsRefused | src/http/client.cpp:224-231 | `bytes */5` is in the grammar and is refused |
| HttpRange.AcceptanceIsExact | src/http/client.cpp:221-256 | a 206 reply is accepted iff its header denotes, readably, exactly the requested range of a file of the stated size, or the whole positive length when the size is unknown |
| HttpRange.DeliveredIsAcceptedIff | src/http/client.cpp:221-256 | of the replies that deliver the range by the standard, exactly those with a lower-case unit and numbers below 2^64 are accepted |
| HttpRange.RangeOutcomes | src/http/client.cpp:194-258 | for every server: an overflowing range is refused, of the 2xx replies exactly the 206 ones that deliver the range readably are returned, everything else passes through |
| EndToEnd.TransferIsFaithful | src/http/client.cpp:54-99 | status, all headers of the last response and the body arrive as sent, in any chunks and after any redirects, or the size limit is reported |
| EndToEnd.HonestServerIsAccepted | src/http/client.cpp:194-258 | against a server that honours ranges, and through the collecting of its reply with any other headers around Content-Range, `get_range` returns exactly the requested slice, or the size-limit error iff it is too long |
| EndToEnd.IndexToMessage | src/models/sidecar.cpp:110-159 | index, range request, collecting and framing compose: entry i fetches exactly message i and the bytes before the next one, and it is framed at the start |
| EndToEnd.ContiguousFile | src/decode/handle.cpp:53-91 | with nothing between messages the fetched body is message i and the frame is the whole body |
| EndToEnd.JsonEntryFetch | src/models/sidecar.cpp:183-193 | an accepted ECMWF entry inside the file fetches exactly its stated bytes iff it states more than none, otherwise everything from its offset on |
| EndToEnd.JsonIndexToMessage | src/models/sidecar.cpp:161-231 | from a printed ECMWF index, entry i fetches exactly message i whatever lies between messages, and the frame is the whole body |
| DecodeGuard.NextKeepsInv | src/decode/handle.cpp:37-49 | every step of every thread keeps the guard's invariant |
| DecodeGuard.ColdCreationIsAlone | src/decode/handle.cpp:37-49 | while a creation that began with the flag false is running, no other creation is |
| DecodeGuard.UnreadyIsSerialized | src/decode/handle.cpp:37-49 | as long as the flag is false at most one creation runs, inside the lock |
| DecodeGuard.ReadyMeansCreated | src/decode/handle.cpp:41-44 | the flag is never true before a creation has succeeded |
| DecodeGuard.FlagIsMonotone | src/decode/handle.cpp:37-49 | the flag never falls, and when it has risen in a run a successful creation was published there |
| DecodeGuard.ReadyIffPublished | src/decode/handle.cpp:37-49 | in every run the flag is true iff some successful cold creation has been published: it rises then and stays |
| DecodeGuard.WarmCallSkipsLock | src/decode/handle.cpp:37-49 | once the flag is true a call creates its handle without the lock, whoever holds it |
| DecodeGuard.LateWaiterGoesWarm | src/decode/handle.cpp:38-48 | a thread that finds the flag true inside the lock gives the lock back and creates outside it |
| DecodeGuard.ColdCallPublishes | src/decode/handle.cpp:38-46 | with the flag false and the lock free one call locks, creates, raises the flag iff it created, and unlocks |
| DecodeGuard.OneCreationPerCall | src/decode/handle.cpp:37-49 | in any run and on whichever path, every call makes exactly one creation |
| DecodeGuard.FailureLeavesGuardCold | src/decode/handle.cpp:40-45 | after a failed creation later threads are serialized again |
| DecodeGuard.GuardNeverBlocksAll | src/decode/handle.cpp:37-49 | a thread inside the guard can move, or the lock's holder can |
| Ownership.GribHandle.Move | src/decode/handle.cpp:108-109 | both pointers move and the source is left empty |
| Ownership.GribHandle.Assign | src/decode/handle.cpp:111-123 | the target's search and handle are deleted in that order, the pointers move; self-assignment changes nothing |
| Ownership.GribHandle.Release | src/decode/handle.cpp:99-106 | the destructor deletes the search before the handle |
| Ownership.GribHandle.Nearest | src/decode/handle.cpp:208-227 | a good search is cached and made from the handle, with nothing deleted; a search already there is used and nothing changes; with no search or a faulty one, deleted at once, the answer is false and the pointers stay |
| Ownership.NextKeepsInv | src/decode/handle.cpp:97-140 | every member function keeps the books and the unique ownership |
| Ownership.TransfersPointers | src/decode/handle.cpp:97-140 | what each member function does to the pointers and to the deletions, stated from the wrappers alone |
| Ownership.SearchIsMadeOnce | src/decode/handle.cpp:208-227 | after a good search, in every run that keeps the handle, however it is moved, the search stays live beside it and no other is ever made from it |
| Ownership.ExactlyOneOwner | src/decode/handle.cpp:97-140 | every live handle and search has exactly one owner, a search together with the handle it was made from |
| Ownership.NothingDangles | src/decode/handle.cpp:97-140 | no wrapper points to a deleted resource |
| Ownership.DeletedOnceSearchFirst | src/decode/handle.cpp:99-121 | nothing is deleted twice, and a search always before its handle |
| Ownership.NothingLeaks | src/decode/handle.cpp:99-106 | once all wrappers are gone everything ever made has been deleted |
| Retry.CalculateRetryDelay | include/grib/retry.hpp:71-95 | the multiply-and-cap loop computes the closed form, jittered, capped and truncated |
| Retry.FieldsInPlainTerms | include/grib/retry.hpp:73-84 | negative maxima and multipliers count as 0, a multiplier that is not finite as 1, the initial delay is moved into [0, maximum] and the jitter into [0, 1], 0 if not finite |
| Retry.DelayInPlainTerms | include/grib/retry.hpp:71-95 | for every policy, in its own fields: the capped initial * multiplier^(attempt - 1), times the draw iff the jitter is positive, capped again, in whole milliseconds |
| Retry.OrdinaryDelay | include/grib/retry.hpp:71-95 | without jitter and with the initial delay within the maximum: the floor of min(maximum, initial * multiplier^(attempt - 1)) |
| Retry.ThirdDelay | include/grib/retry.hpp:78-82 | 500 ms doubled twice is 2000 ms |
| Retry.BackoffStep | include/grib/retry.hpp:80-82 | one turn of the loop advances min(maximum, initial * m^n) by one power, for every m >= 0 |
| Retry.DelayIsBounded | include/grib/retry.hpp:83-94 | with any jitter draw the delay stays between 0 and the maximum |
| Retry.DelayWithoutJitter | include/grib/retry.hpp:83-94 | with no jitter the delay is the closed form in whole milliseconds |
| Retry.TotalDelayIsBounded | include/grib/retry.hpp:98-121 | n calls sleep at most (n-1) times the maximum |
| Retry.WithRetry | include/grib/retry.hpp:40-124 | calls up to and including the first outcome that no set flag asks to repeat (429 and rate limits, 5xx and server errors, network errors and timeouts) or the last attempt, returns that outcome, sleeps the delay after every call but the last, and never wraps its counter |

## Left out

- libcurl setup, `perform`, URL checks and the global runtime: foreign calls.
- The transport's loop over chunks and header lines is a fold; catching allocation failures in the callbacks is not modelled.
- ecCodes itself: decoding, keys, values, the grid search and the normalisation of coordinates; a rejected `nearest` call changes nothing it owns.
- JSON text parsing, and the digits of `to_chars` for a real, which come as given text.
- Floating-point rounding, NaN arithmetic and the random generator: any draw within the spread is allowed.
- Weak-memory effects of the atomics in the first-decode guard: steps are sequentially consistent.
- The guard and the shared limiter are transition systems on values; the class `RateLimiter.Limiter` covers the limiter's update in place for one thread at a time.
- RateLimiter.Limiter.AcquireUntil: runs as many turns as its list supplies, because the source's loop has no bound of its own; progress is stated by `Acquisition.SecondAttemptSucceeds` and `RateSystem.RefusedAgainMeansInterference`.
- Acquisition.TimesOutIffNoToken: speaks of readings of one attempt that coincide; the source reads the clock again before the deadline check, and `Acquisition.AcquireIsSerial` says what holds for any readings.
- Moves of `GribFile`, whose moved-from buffer the source leaves unspecified.
- `extract_point`, `extract_points`, `RetryingClient`, `ScopedRateLimit` and the error factories: straight calls that would add easy members.
