# Verified model of the Copper C library

A Dafny model of the parts of Copper (a small C utility library) whose correctness rests on an
argument rather than on reading one function: a lock-free byte ring, unbiased random ranges, the
in-place path normalizer, log rotation and the logger's fan-out, Base64, the mutex fallback of the
atomics, and the bump allocator. `dafny verify dfyconfig.toml` checks everything.

| file | contents |
|---|---|
| `Bits.dfy` | machine words as bounded integers, C's bit operators, counting over all words |
| `RingBuffer.dfy` | the SPSC ring: slots, the two-thread protocol, the structure with its array |
| `Rand.dfy` | multiply-and-reject, mask-and-reject, signed ranges; uniformity by counting |
| `PathSpec.dfy`, `PathProps.dfy`, `PathSplit.dfy`, `Path.dfy` | paths as component lists, what the normalizer's loop computes, when that is the reference, splitting and joining, and the functions on buffers |
| `LogFiles.dfy`, `LogSink.dfy` | one rotation of a numbered family of files; runs of a file sink; the sink as an object |
| `LogFanout.dfy` | threads writing through one logger to several sinks; the sink array |
| `Base64.dfy` | RFC 4648 sections 3.2, 4 and 5; the encoder and decoder loops, as written and repaired |
| `Atomic.dfy` | single-step atomics as specification, and the lock/read/write/unlock fallback |
| `Arena.dfy` | alignment on absolute addresses, allocation, rewind and reset |

Conventions. `uint32_t`, `uint64_t` and `size_t` are bounded integers where their arithmetic can wrap,
and then goes through `Wrap32` or `Wrap64`; `size_t` and `uintptr_t` are 64 bits wide. Lengths of C
strings are unbounded numbers: one more than a length is the size of an object and cannot wrap. Bit
operators are defined digit by digit on integers. A C string is its characters before the terminator.
Concurrent code is a state machine over atomic steps of any number of threads (two for the ring); a
run is any sequence of events, and an event that a thread's position does not allow changes nothing,
so a statement about all event sequences is one about all interleavings. A mutex is an owner field
that only the lock and unlock steps look at. Where the source changes fields or buffers in place
there is a class or a method on arrays, tied by its contract to the functions the lemmas are about.

## Where the code and its promise differ

- Base64 (`src/base64.c:94`, `:175`, `:182-183`): three spots defeat the round trip promised in
  `include/copper/base64.h`. `Revision` selects the source as written or with exactly those three
  spots repaired. As written, encoding is right exactly for inputs of a multiple of three bytes
  other than three (`EncodeAsWrittenIff`), and the round trip holds exactly for those of them whose
  groups survive the dropped sextets (`RoundTripAsWrittenIff`). The file is not in the build list
  (`CMakeLists.txt:30-43`).
- Base64 sizes (`src/base64.c:50-63`): both size functions wrap for inputs near the top of `size_t`;
  the encoder's own size test then lets a buffer pass that is too small.
- Normalizing relative paths (`src/fs.c:225-231`): the cursor saved for an unmatched `..` lies after
  it, so the next unmatched `..` removes nothing and disappears; of `n` unmatched `..`s half remain,
  rounded up. `../..` becomes `..`, and three or more unmatched `..`s change again when the result
  is normalized again.
- Normalizing deep paths (`src/fs.c:230`, `:239`): only 256 cursors are saved. An absolute path
  loses names exactly when a `..` is met with more than 256 names open and the path does not come
  back to the root afterwards. A relative path without unmatched `..`s loses names exactly when one
  is met with more components open than cursors.
- Splitting and joining (`src/fs.c:70-74`, `:134-141`): a separator at the end of a path stays with
  the base name. So dirname and basename of `a/` join to `a/a/`, and those of `a//`, where the base
  name is a separator, to the root (`SplitThenJoinIff` gives the exact condition).
- Normalizing a lone backslash (`src/fs.c:246-249`): the final test treats `\` as a separator also
  on POSIX, so `\` becomes `\.`, and for the path `\` and a buffer of exactly two bytes, which
  passes the size check, the terminator would be written one byte past the buffer.
- "Unlimited" archives (`include/copper/log.h:151`, `src/log.c:260`): only slots 1 to 999 are
  shifted, so such a sink keeps 1000 archives, and the rotation after that replaces slot 1000.
- A daily or hourly sink opened for appending takes its day from the time of opening
  (`src/log.c:365-367`), not from the file: records written on that day follow older ones in the
  same file (`AppendMixesDays`; the exact condition is `EveryFileOneKeyIff`).
- The hourly mode compares the hour alone and the daily mode the day of the year alone
  (`src/log.c:283-291`): records of the same hour on different days can share a file
  (`HourlyMixesDays`, `HourlyFilesOneDayIff`), and so can those of the same day in different years.
- A file sink in size mode that cannot reopen its file after a rotation never writes or rotates
  again, because its size counter stays at zero (`src/log.c:271-272`, `:301-304`); in the daily and
  hourly modes it tries again when the day or hour changes.
- The arena's size test (`src/arena.c:106`) wraps once the aligned offset has passed the capacity;
  such a request is granted outside the buffer. No offset can get there exactly when the end address
  is a multiple of the alignment.

## Model

| member | source | states |
|---|---|---|
| RingSlots.SlotIsMod | src/ringbuf.c:52-78 | masking a wrapped counter and splitting a copy at the end of the array put byte j of a copy in the slot of the true, unbounded counter |
| RingSlots.WrapDistance | src/ringbuf.c:90-92 | subtracting wrapped 32-bit counters recovers the true distance |
| RingSlots.DistinctSlots | src/ringbuf.c:52-78 | counters less than a capacity apart use different slots |
| RingProtocol.StepKeepsInv | src/ringbuf.c:82-170 | every step of either thread (load and decide, copy one byte in any order, publish) keeps the invariant over the true counters, the unread bytes and both half-done copies |
| RingProtocol.RunKeepsInv | src/ringbuf.c:82-170 | so does every interleaving of any length |
| RingProtocol.DeliveredInOrder | src/ringbuf.c:82-170 | in every interleaving, with counters wrapping any number of times, the bytes taken are a prefix of the bytes published; the backlog is at most the capacity and both threads see it exactly |
| RingProtocol.PublishedIsAccepted | src/ringbuf.c:82-125 | in every interleaving what is published, and under way, is what the producer's calls were granted: of the bytes each passed in, those that fit in the free space, or for write_all everything or nothing |
| RingProtocol.TakenIsServed | src/ringbuf.c:129-170 | in every interleaving as many bytes are taken, or under way, as the consumer's calls were granted: of those asked for, as many as are there, or for read_all everything or nothing |
| RingProtocol.CallerToCaller | src/ringbuf.c:82-170 | in every interleaving the bytes returned to the consumer's callers are the first of those the producer's callers passed in, and as many as were granted |
| RingProtocol.CopiesAreDisjoint | src/ringbuf.c:52-78 | in every reachable state no slot the producer is filling is a slot of an unread byte, or one the consumer is copying |
| RingProtocol.WriteTakesWhatFits | src/ringbuf.c:90-96 | in every reachable state a write takes exactly the bytes that fit, a write_all all or nothing |
| RingProtocol.ReadTakesWhatIsThere | src/ringbuf.c:136-142 | in every reachable state a read returns exactly what is there, a read_all all it asked for or nothing |
| RingProtocol.FreeStaysAvailable | src/ringbuf.c:105-125 | free space the producer observed is still enough for its write_all whatever steps the consumer takes in between |
| RingProtocol.SizeStaysAvailable | src/ringbuf.c:151-170 | data the consumer observed is still enough for its read_all whatever the producer does in between |
| RingObject.CopiedInAppends | src/ringbuf.c:52-64 | copying in at the head counter appends to the readable window, across the end of the array and of the counter |
| RingObject.CprRingBuffer.Init | src/ringbuf.c:12-39 | accepts exactly the nonzero powers of two, and then the ring is empty |
| RingObject.CprRingBuffer.CopyIn | src/ringbuf.c:52-64 | what every slot of the array holds after the copy |
| RingObject.CprRingBuffer.CopyOut | src/ringbuf.c:66-78 | the destination receives the window at the counter, read around the end, and nothing beyond it changes |
| RingObject.CprRingBuffer.Write | src/ringbuf.c:82-103 | appends the longest prefix that fits and reports its length |
| RingObject.CprRingBuffer.WriteAll | src/ringbuf.c:105-125 | appends everything or, exactly when it does not fit, nothing |
| RingObject.CprRingBuffer.Read | src/ringbuf.c:129-149 | removes and returns the oldest bytes, as many as asked for and there |
| RingObject.CprRingBuffer.ReadAll | src/ringbuf.c:151-170 | returns all bytes asked for or, exactly when too few are there, changes nothing |
| Rand.EarlyAcceptAgrees | src/rand.c:56-73 | the early accept changes nothing: a word is accepted exactly when its low half reaches 2^32 mod width, and yields the high half |
| Rand.LemireUniform | src/rand.c:56-73 | for every width each result below it is yielded by exactly floor(2^32 / width) of the 2^32 words |
| Rand.RandrU32 | src/rand.c:151-162 | the loop returns the value of the first accepted word of its stream and rejects all words before it |
| Rand.Draw32InRange | src/rand.c:151-162 | every accepted value lies in [min, max] |
| Rand.Draw32Is | src/rand.c:56-73 | an accepted word x yields min plus the high half of x * size, and is accepted when the low half reaches 2^32 mod size; in the full range it yields itself |
| Rand.Randr32Uniform | src/rand.c:151-162 | each value of [min, max], the full range included, has exactly floor(2^32 / (max - min + 1)) source words |
| Rand.SmearDoubles | src/rand.c:75-85 | or-ing a number with its shift by s doubles the run of leading ones from s |
| Rand.MaskIsLeast | src/rand.c:75-85 | the shift cascade returns the least 2^k - 1 that is at least width - 1, so mask + 1 is below twice the width |
| Rand.RandrU64 | src/rand.c:164-177 | the loop returns the value of the first accepted word and rejects all before it |
| Rand.Draw64InRange | src/rand.c:164-177 | every accepted value lies in [min, max] |
| Rand.Draw64Is | src/rand.c:164-177 | a word yields min plus its remainder by the least power of two that covers the range, if that is in the range |
| Rand.Randr64Uniform | src/rand.c:164-177 | each value of [min, max] has exactly 2^(64-k) source words, with k the digits of the mask |
| Rand.KeepsMoreThanHalf32 | src/rand.c:151-162 | of all 2^32 words exactly size * floor(2^32 / size) are accepted, more than half |
| Rand.KeepsMoreThanHalf | src/rand.c:164-177 | of all 2^64 words exactly 2^(64-k) for each value of the range are accepted, more than half |
| Rand.RandrI32 | src/rand.c:179-184 | the biased draw lies in the signed range and is the first accepted one |
| Rand.RandrI64 | src/rand.c:186-191 | the same for 64 bits |
| Rand.Shifted32 | src/rand.c:179-184 | a word yields a signed value exactly when it yields that value plus 2^31 in the range shifted by 2^31 |
| Rand.Shifted64 | src/rand.c:186-191 | the same for 64 bits and 2^63 |
| Rand.SignedUniform32 | src/rand.c:179-184 | each signed value of a range of size values has exactly floor(2^32 / size) source words |
| Rand.SignedUniform64 | src/rand.c:186-191 | for 64 bits each signed value has exactly 2^(64-k) source words |
| PathSpec.ComponentsSplit | src/fs.c:210-244 | a separator splits the list of components |
| PathSpec.ComponentsSingle | src/fs.c:210-214 | a text without separators is one component |
| PathSpec.RenderSnoc | src/fs.c:232-237 | rendering one more component puts exactly one separator before it, and none before the first |
| PathSpec.ComponentsOfRender | src/fs.c:162-254 | parsing the rendering of components gives them back, and whether the path is absolute |
| PathSpec.ReduceDrops | src/fs.c:217-231 | in the reference, a `.` can be left out anywhere, and a name together with the `..` behind it |
| PathSpec.ReduceRoot | src/fs.c:219-223 | a `..` at an absolute root can be left out |
| PathSpec.ReduceKeeps | src/fs.c:217-241 | names, in a relative path behind any number of `..`s, are their own reduction |
| PathCode.CursorBound | src/fs.c:169-254 | the output cursor never overtakes the input cursor: what the first p characters of the path give fits in p characters |
| PathProps.CodeTextIs | src/fs.c:246-251 | the result is the rendering of the components kept, except for the empty relative result and the lone backslash |
| PathProps.CodeIs | src/fs.c:210-244 | on paths of any depth the cursor loop computes the reduction limited to 256 saved cursors, with the unmatched `..`s halved and rounded up |
| PathProps.RelativeNormalIff | src/fs.c:210-251 | a relative path of any depth normalizes to the list-level reduction exactly when no names are lost for good, the number of names lost on the way is that of the unmatched `..`s or one less, and what is left is not a lone backslash |
| PathProps.MatchedNormalIff | src/fs.c:210-251 | a relative path of any depth without unmatched `..`s normalizes to the reduction exactly when no `..` is met with more components open than cursors, and what is left is not a lone backslash |
| PathProps.NothingLostIff | src/fs.c:225-241 | no names are lost exactly when no `..` is met with more components open than cursors |
| PathProps.LimitedAbsoluteIff | src/fs.c:225-241 | on absolute paths the limited reduction is the list-level one exactly when no names are lost |
| PathProps.ShallowNormalIff | src/fs.c:210-251 | within the depth limit that is exactly when at most one `..` is left unmatched and what is left is not a lone backslash |
| PathProps.UnmatchedUpsHalve | src/fs.c:219-231 | a path of n unmatched `..`s comes out with half of them, rounded up, for every n |
| PathProps.DotDotWitness | src/fs.c:219-231 | `../..` comes out as `..` |
| PathProps.AbsoluteNormalIff | src/fs.c:210-251 | an absolute path of any depth normalizes to the reduction exactly when no `..` with more than 256 names open is followed to the end without a return to the root |
| PathProps.DeepPathLoses | src/fs.c:225-241 | every path, absolute or relative, of more than 256 names and one `..` comes out with its first 255 names, where all but the last should be left |
| PathProps.DeepPathWitness | src/fs.c:225-241 | such paths exist for every number of names above 256 |
| PathProps.ResultIsCanonical | src/fs.c:162-254 | every result, for every input, is an optional root, then `..`s only if relative, then names, or the lone `.`; it is absolute exactly when the input is |
| PathProps.ResultLength | src/fs.c:169-174 | the result is longer than the input (one character for the empty input) exactly for the path `\` |
| PathProps.IdempotentIff | src/fs.c:162-254 | normalizing again changes nothing on absolute paths of any depth, and on relative paths exactly when no beginning of the path has more than two `..`s beyond its names, lost names counting as cancelled; within the depth limit, when at most two are left unmatched |
| PathProps.NotIdempotentWitness | src/fs.c:219-231 | `../../..` comes out as `../..`, and that as `..` |
| Path.WriteDotDot | src/fs.c:219-231 | the `..` branch on the buffer and the saved cursors does the list-level step |
| Path.WriteName | src/fs.c:232-241 | so does the branch for a name |
| Path.WriteComponents | src/fs.c:210-244 | the loop leaves the rendering of the reduced components in the buffer |
| Path.NormalizePath | src/fs.c:162-254 | which inputs are refused; otherwise the buffer holds the result with its terminator, except for the path `\` and a two-byte buffer, which is the only case of a write past the end |
| PathSplit.SplitThenJoin | src/fs.c:65-160 | for every path not ending in a separator, joining dirname and basename and normalizing gives what normalizing the path gives |
| PathSplit.DirnameIs | src/fs.c:89-124 | the directory is what stands before the last separator, the root if that is nothing, and `.` without a separator |
| PathSplit.BasenameIs | src/fs.c:65-76 | the base name is what stands behind the last separator, whether or not another one ends the path |
| PathSplit.JoinIs | src/fs.c:126-160 | an absolute part replaces the base; otherwise one separator stands between two parts unless the base brings it, and none is added to an empty one |
| PathSplit.SplitThenJoinIff | src/fs.c:65-160 | over every path: the two halves, joined and normalized, give what normalizing the path gives exactly when there is no separator at the end; or one, and the last component is `.` or a `..` that finds no name and is dropped; or more (or the root alone), and the path leads to the root |
| PathSplit.TwoSepsWitness | src/fs.c:65-160 | for `a//` the join leads to the root, where normalizing gives `a` |
| Path.Basename | src/fs.c:65-76 | the scan finds the character after the last separator that is not the last character, or the start |
| Path.DirnameInto | src/fs.c:89-124 | the buffer holds what precedes the last separator (`.` without one, the root for the first); when it is refused, and that it is then untouched |
| Path.JoinInto | src/fs.c:126-160 | an absolute part replaces the base, otherwise one separator is put between them if needed; when it is refused, and that it is then untouched |
| LogFiles.SlotNamesDiffer | src/log.c:255-268 | the names of the family, the current file's included, are pairwise different |
| LogFiles.SlotNameIs | src/log.c:255-268 | the current file is named by the path, archive i by the path, a dot and i in decimal without leading zeros |
| LogFiles.RotationShifts | src/log.c:246-273 | with a limit N > 0 one rotation is an exact shift for every pattern of missing archives: slot i+1 becomes slot i, slot 1 the old current file, slots above N stay, the current file is empty |
| LogFiles.RotationOutside | src/log.c:246-273 | files outside the family are untouched |
| LogFiles.UnlimitedShifts | src/log.c:260-266 | with max_files 0 the same shift reaches slot 1000 and no further |
| LogFiles.UnlimitedKeepsLastIff | src/log.c:260-266 | the archive in slot 1000 then stays exactly when slot 999 is empty or holds the same |
| LogSink.CutsAreStream | src/log.c:295-305 | the calls grouped by file are, in order, the calls of the stream: every record is in exactly one file, whole |
| LogSink.RunHolds | src/log.c:246-305 | after any run the current file holds the current chunk and archive i the chunk rotated away i rotations ago |
| LogSink.RetainedIsSuffix | src/log.c:246-305 | starting without archives, archives N down to 1 and the current file together hold exactly the records from some number on, which is the end of a file rotated away, and all records until the (N+1)th rotation; in all rolling modes, for appending and overwriting |
| LogSink.NoRollingCuts | src/log.c:275-280 | without a rolling mode, or in size mode with max_bytes 0, all records stay in one file |
| LogSink.NoRollingFiles | src/log.c:275-305 | that file then holds all of them behind what was in it, and no other file changes |
| LogSink.WholeStreamIff | src/log.c:246-305 | in size mode the files hold the whole stream exactly while there were at most N rotations (1000 where unlimited is asked for) |
| LogSink.RunCurrent | src/log.c:295-305 | the sink's size counter always equals the length of the current file, whatever archives exist |
| LogSink.SizeCuts | src/log.c:275-280 | in size mode every file rotated away has at least max_bytes, and had less before its last record; for the first file unless what was found in it was too much already |
| LogSink.TimedCuts | src/log.c:280-292 | in the daily and hourly modes every file after the first holds records of one day of the year (or hour of the day) only, and starts with another than the file before |
| LogSink.EveryFileOneKeyIff | src/log.c:280-292 | the first file, too, is of one day exactly when what the sink found in it is, and is of the day of opening unless the first record already rotates |
| LogSink.AppendMixesDays | src/log.c:343-367 | an appending daily sink puts a record of the day of opening behind any older contents |
| LogSink.HourlyFilesOneDayIff | src/log.c:288-291 | in the hourly mode every file is of one day exactly when what was found in the first is, and successive records with the same hour are always of the same day |
| LogSink.HourlyMixesDays | src/log.c:288-291 | two records of the same hour on different days end up in one file |
| LogSink.FailedReopenIsFinal | src/log.c:271-304 | in size mode nothing is written or rotated after a rotation that could not reopen the file |
| LogSink.SizeOpenIff | src/log.c:271-304 | in size mode the sink is open after a run exactly when every call that rotated could reopen the file |
| LogSink.SilentUntilNextKey | src/log.c:280-304 | in the daily and hourly modes a sink without a file changes nothing while the day (or hour) stays the same |
| LogSink.ResumesAtNextKey | src/log.c:280-304 | the first record of another day (or hour) rotates again, and if the file can be reopened it is in it |
| LogSinkObject.CprFileSink.constructor | src/log.c:343-367 | the state of a sink opened for appending or for overwriting |
| LogSinkObject.CprFileSink.Rotate | src/log.c:246-273 | the loop of renames leaves the file system of one rotation |
| LogSinkObject.CprFileSink.MaybeRotate | src/log.c:275-293 | when the sink rotates and what it then remembers |
| LogSinkObject.CprFileSink.Write | src/log.c:295-305 | one write is one step of the runs above |
| LogFanout.StepKeepsInv | src/log.c:537-577 | every step of any thread keeps: only the owner is inside, and for each sink the bytes received and the bytes still owed make up its filtered stream |
| LogFanout.EachSinkReceives | src/log.c:537-577 | in every interleaving there is one order of the records, by acquisition of the mutex, such that each sink's bytes are a prefix of the texts of the records at its level or above, made by its own formatter or else the logger's, each as often as the sink is registered; complete whenever no thread holds the mutex |
| LogFanout.ThreadOrderKept | src/log.c:537-577 | that order keeps each thread's records in the order it submitted them, all but the one it may be waiting with |
| LogFanout.OrderedPassLogger | src/log.c:541-542 | only records at the logger's level or above, and below CPR_LOG_OFF, are ever ordered |
| LogFanout.AcceptedIsSubmitted | src/log.c:541-542 | and all such records submitted by a thread that is in no other call are accepted |
| LogFanout.CallCompletes | src/log.c:558-577 | a thread that waits for a free mutex, or holds it, comes to the end of its call by its own steps; then the mutex is free and each sink has received all that was due to it |
| LogFanout.OwnerIsReady | src/log.c:558-577 | in every run that holds of the thread that has the mutex |
| LogSinkList.CprLogger.AddSink | src/log.c:466-480 | appends unless eight sinks are there, and then changes nothing |
| LogSinkList.CprLogger.RemoveSink | src/log.c:482-498 | removes the first occurrence, keeping the order of the others |
| LogSinkList.RemoveUndoesAdd | src/log.c:466-498 | removing a sink just added restores the list |
| Base64Spec.AlphabetInverse | src/base64.c:9-46 | the two alphabet functions are inverse in both directions, and the padding character is in neither alphabet |
| Base64Spec.AlphabetIs | src/base64.c:9-21 | the character for each value is the one at that place of the alphabet, and the padding character is `=` |
| Base64Spec.InAlphabetIff | src/base64.c:23-46 | a character has a value exactly when it is in the alphabet |
| Base64Spec.EncodesOne | src/base64.c:95-103 | the four characters, padded and in the standard alphabet, for a single left-over byte |
| Base64Spec.EncodesTwo | src/base64.c:104-112 | the same for two left-over bytes |
| Base64Spec.EncodesThree | src/base64.c:84-92 | the same for three bytes |
| Base64Spec.Section10 | src/base64.c:84-112 | three of the test vectors of section 10 of RFC 4648 |
| Base64Spec.WellFormedIff | src/base64.c:132-143 | a text is well formed exactly when it splits into characters of the alphabet, not one past a whole group, and at most two `=` that complete a multiple of four |
| Base64Spec.RegroupingInverse | src/base64.c:84-112 | regrouping bits by six and by eight are inverse for every byte sequence |
| Base64.SextetSum | src/base64.c:84-92 | the four sextets are the base-64 digits of the number whose base-256 digits are the three bytes, most significant first |
| Base64.OctetSum | src/base64.c:175-178 | and the other way round |
| Base64Spec.DecodeUndoesEncode | include/copper/base64.h:33-48 | decoding undoes encoding for every input, both alphabets, padded or not |
| Base64Spec.EncodedLenIsExact | src/base64.c:50-58 | `cpr_base64e_len`, in size_t arithmetic, is the length of the encoding and its terminator exactly up to the data size at which that length passes 2^64 |
| Base64Spec.DecodedLenIsBound | src/base64.c:60-63 | `cpr_base64d_len`, in size_t arithmetic, bounds the decoded length of a well-formed text exactly up to length 2^64 - 4 |
| Base64Spec.DecodedSizeIs | src/base64.c:60-63 | up to that length it is the least multiple of four that is at least the length of the text |
| Base64.EncodeAsWrittenIff | src/base64.c:94-112 | as written, the encoder's text is the RFC's exactly for inputs of a multiple of three bytes other than three |
| Base64.Encode | src/base64.c:67-115 | the loops leave that text and its terminator in the buffer and change nothing after it; when they refuse, by the size in size_t arithmetic, and when they would read past the input or write past the buffer |
| Base64.RepairedDecodes | src/base64.c:126-211 | repaired, the decoder accepts exactly the texts that, without at most two padding characters completing a multiple of four, are alphabet characters of a length not 1 mod 4, and yields what they encode |
| Base64.RepairedRoundTrip | include/copper/base64.h:33-48 | repaired, the code's round trip returns every input, both alphabets, padded or not |
| Base64.RoundTripAsWrittenIff | src/base64.c:94-183 | as written, it does exactly for multiples of three bytes other than three whose groups have no bits in the dropped sextets |
| Base64.TailAsWrittenIs | src/base64.c:181-191 | as written, the byte for two last characters is the alphabet code of the first shifted by two, or-ed with the upper half of that of the second |
| Base64.DecodeGroups | src/base64.c:159-179 | the loop over whole groups accepts exactly alphabet characters and writes three bytes per group |
| Base64.Decode | src/base64.c:117-212 | when it refuses, when it would read outside its table, and otherwise exactly the decoded bytes in the buffer with their number, nothing after them changed |
| AtomicSpec.SpecRunIsLegal | src/atomic.c:278-383 | in runs of single-step operations each reports what it does on the value its predecessors left |
| AtomicSpec.LegalHasHistory | src/atomic.c:278-383 | the operations of a legal log lead through a history of values, each reporting the value before it and leaving the value it should, spelled out for all six |
| AtomicSpec.ExchangesConserve | src/atomic.c:307-322 | exchanges lose no value and invent none: those returned and the last are those given and the first |
| AtomicSpec.LoadsReportLastStored | src/atomic.c:278-305 | among loads and stores a load reports the value last stored |
| AtomicSpec.OneWinner | src/atomic.c:324-349 | of compare_exchanges that all expect the initial value and replace it the first succeeds and no other |
| AtomicSpec.TicketsAreDistinct | src/atomic.c:351-366 | up to 2^32 increments by one report pairwise distinct values |
| AtomicFallback.FallbackRefinesAtomics | src/atomic.c:286-383 | for any number of threads, every run of lock, read, write and unlock steps is a run of single-step atomic operations |
| AtomicFallback.CallsPerformedInOrder | src/atomic.c:286-383 | each thread's calls are performed once each and in order, all but the one pending |
| AtomicFallback.OnlyCalledOps | src/atomic.c:286-383 | nothing is performed that no thread called |
| AtomicFallback.CellIsReplay | src/atomic.c:286-383 | the cell holds what the performed operations leave, and each returned what it saw |
| AtomicFallback.RunHasHistory | src/atomic.c:286-383 | every run has such a history from the initial to the present value |
| AtomicFallback.CallCompletes | src/atomic.c:286-383 | an undisturbed call that finds the mutex free ends with it free, and with the effect and result of its operation on the value it found |
| AtomicFallback.CounterTracksLog | src/atomic.c:351-383 | while threads add, subtract and load, the cell is the initial value plus everything performed, mod 2^32 |
| AtomicFallback.CounterIsSum | src/atomic.c:351-383 | once all threads have returned it is the initial value plus the sum of everything called, mod 2^32 |
| AtomicFallback.ConcurrentTickets | src/atomic.c:351-366 | up to 2^32 performed fetch_add(1) return pairwise distinct values |
| Arena.AlignUpIsLeastMultiple | src/arena.c:33-36 | the bit trick gives the least multiple of the alignment at or after the address |
| Arena.AlignUpWraps | src/arena.c:33-36 | past the top of the address space it gives address 0 |
| Arena.GrantedBlockInsideIff | src/arena.c:102-113 | a granted block lies inside the buffer exactly when the aligned offset has not passed the capacity |
| Arena.EveryOffsetSafeIff | src/arena.c:102-106 | no offset is aligned past the capacity exactly when the end address is a multiple of the alignment |
| Arena.PastEndIsGranted | src/arena.c:106-113 | once it is past, every request of at most the capacity is granted outside the buffer |
| Arena.UnalignedEndWitness | src/arena.c:106-113 | a four-byte arena at address 8 grants a 16-aligned byte at address 16 |
| Arena.AllocPlacesNextAligned | src/arena.c:88-114 | with an aligned end, a request succeeds exactly when the block fits after the next aligned address, and is placed there |
| Arena.AlignmentsAccepted | src/arena.c:38-41 | exactly the powers of two are accepted as alignments, and a refused request changes nothing |
| Arena.AllocIs | src/arena.c:102-113 | wherever the buffer ends: a request goes to the next aligned address if it fits; if not it is refused while that address is inside, and granted all the same once it is past the end, up to the size of the address space |
| Arena.ResetEmpties | src/arena.c:121-128 | after a reset a request that fits is placed at the first multiple of the alignment in the buffer |
| Arena.StepKeepsInv | src/arena.c:88-136 | every call keeps live blocks aligned, ordered, disjoint and below the offset, and knows what a rewind releases |
| Arena.LiveBlocksStayApart | src/arena.c:88-136 | over any run of allocations, rewinds and resets live blocks are aligned, inside the buffer and pairwise disjoint |
| Arena.RewindUndoesNewest | src/arena.c:130-136 | a rewind releases exactly the newest block and restores the offset; a second changes nothing |
| Arena.CprArena.InitBuf | src/arena.c:68-84 | which buffers are refused, and that the arena then starts empty |
| Arena.CprArena.AllocAligned | src/arena.c:88-114 | one allocation on the structure is one step of the runs above |
| Arena.CprArena.ResetAll | src/arena.c:121-128 | so is a reset |
| Arena.CprArena.RewindOne | src/arena.c:130-136 | and a rewind |

## Left out

- Path.NormalizePath: the buffer and the path are different memory. When they overlap, the source copies names with memcpy between overlapping ranges, which C leaves undefined. The same holds for Path.DirnameInto and Path.JoinInto.
- Path.JoinInto: the sum of two path lengths is taken not to wrap.
- LogSink.RetainedIsSuffix: every call that rotates can reopen the file; what happens otherwise is stated by FailedReopenIsFinal, SizeOpenIff, SilentUntilNextKey and ResumesAtNextKey. Failing renames and writes are not modelled.
- RingProtocol.DeliveredInOrder: atomics are sequentially consistent, as the code asks for; weaker memory orders are not modelled. `cpr_ringbuf_size` from a third thread, whose two loads are no snapshot, is left out.
- Rand.RandrU32: the random source is a finite stream given to the method, and a stream without an accepted word yields no result; the operating system's source, its failures and `cpr_rand_f64` are left out.
- Base64.Decode: the contents of the buffer after a refusal part way through are not specified.
- LogFanout.EachSinkReceives: levels and the sink list stay fixed during the run, and formatters are functions; the fixed-size message and output buffers, truncation marks and the time stamp taken before the mutex are not modelled.
- AtomicFallback.FallbackRefinesAtomics: the 32-bit unsigned width and six operations; other widths and the and/or/xor operations have the same shape. Native compiler atomics are taken as they are.
- NULL arguments: the types exclude them, except where a zero buffer size stands for one.
- Windows branches of src/fs.c (drive letters, UNC paths), `cpr_path_ext`, and all file-system calls other than the effect of rename, remove and open on the sink's files.
- src/sync.c, src/thread.c, src/env.c, src/time.c, src/error.c and src/copper.c: wrappers over the platform or straight-line code. Mutual exclusion is assumed of a mutex, and local day and hour are parameters of a write.
- Console and callback sinks, colours, formatters, the 512-byte name buffers of src/log.c and flushing.
- Arena creation through an allocator callback, default alignment and freeing.
