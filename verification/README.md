# rustguac, modelled and proved

A Dafny 4.11 project beside rustguac. It models the parts of the gateway where a
fast, stateful or fault-tolerant piece of code has to agree with a simple idea,
and proves that it does.

| file | what it models |
|---|---|
| `Bytes.dfy`, `CodePoints.dfy`, `Wire.dfy` | byte strings, UTF-8, and the Guacamole wire format: element and instruction parser, printer |
| `Base64.dfy` | the strict standard base64 engine |
| `BlobSplitter.dfy` | lifting base64 blobs out of the text into binary WebSocket frames |
| `SpsRewriter.dfy` | editing the SPS of H.264 blobs in flight |
| `InstructionStarts.dfy` | the telemetry's second, cheaper parser |
| `FrameStats.dfy`, `Telemetry.dfy` | the sync handshake, the lag average, the overpaint report |
| `ChangeLog.dfy` | the bounded address book change log, its per-caller filter, and a polling page |
| `EntryStore.dfy`, `BulkMove.dfy` | updating, moving and bulk-moving stored entries under faults |
| `Credentials.dfy` | saving credential variables across two stores |
| `FolderWalk.dfy` | gathering variables from a folder forest |
| `Users.dfy` | OIDC logins over the user table |
| `Allocator.dfy` | display and port numbers of browser sessions |

`dafny verify dfyconfig.toml` checks everything.

How the model is built:

- A Rust string is its bytes. The wire parser works on offsets into one text, as
  the code does; a specification function says what is read, a method with the
  code's loops is proved equal to it, and the laws are lemmas about the function.
- An object whose methods change it is a class; each method states its whole new
  state through a function of the old one. Concurrent code (bulk moves, browser
  sessions) is a state machine over its atomic steps, run in any order.
- Clocks, store faults and access checks are parameters: a clock reading in
  nanoseconds, a function from call number to fault, an outcome per row. A failed
  store call changes nothing, and "not found" is only answered for what is absent.
- The bit-level SPS edits are arbitrary functions handed to the rewriter, so its
  laws hold whatever they compute; locating the SPS is modelled in full.
- Counters are unbounded. `usize` is 64 bits, stream indices are `u32`, and the
  numeral parsers keep Rust's `+` sign, leading zeros and overflow.

Where the code and a natural reading of it differ, the exact condition is proved:

- `SplitIsLossless`: re-encoding the frames gives the input back if and only if
  every lifted blob had exactly two arguments and minimal numerals.
- `ParsersAgreeOnAscii`: the two element parsers agree on an accepted element if
  and only if its value is ASCII, since one counts code points and one bytes.
- `EarlyReturnShowsIff`, `SkippedChunksShowIff`, `SkippedOpeningOrEndShows`: the
  rewriter's early return also stops tracking streams. When frame_num gaps are
  asked for afterwards, the output is that of the full scan, whatever comes, if
  and only if the streams opened and ended in the skipped chunks cancel out.
- `SpsRangeIsFirstUnit` and `HiddenSps`: the SPS found is the first one, where a
  start code right behind another, in the place of its header byte, begins no
  unit; an SPS there is not seen.
- `UnitIsItsOwnIff`, `DrawIsItsOwnIff`, `BorrowedKeyframe`: the walk over elements
  does not stop at `;`, so an instruction too short for what is read of it takes
  the rest from the next one; exactly those do.
- `SyncsAreInstructions`: a sync whose opcode length has leading zeros is parsed
  by the splitter and passed over by the telemetry; every other one is counted.
- `WatermarkDecides`, `RefusesOnlyWhenEvicted`, `EmptyFirstVersionRefuses`: the
  change log also refuses a page that precedes a leading empty change set, though
  nothing was evicted.
- `MergeKeepsSecrets`: an update without a hop list drops the stored hops with
  their secrets, although the comment above the code speaks of every secret.
- `RetryLeavesTheDuplicate`, `DuplicateStays`, `SyncRunKeepsIdsUnique`: after an
  incomplete move a retry finds the id in place and moves nothing; the duplicate
  stays through every later request.
- `SaveOverridesView` and `HalfWrittenSave`: what a credential save does to the
  merged view, and exactly which saves a failed second write spoils.
- `BoundLogin`: a login that carries no subject is accepted as a bound user.
- `SecondKillIsHarmlessIff` and `SecondKillStealsTheDisplay`: killing a session
  twice is harmless if and only if nobody has been given its display since. Its
  callers, `src/session.rs:2116-2117` and `2897-2900`, drop the record after one.

## Model

| member | source | states |
|---|---|---|
| Bytes.DecimalIsMinimal | src/binary_blob.rs:66 | among all numerals a length prefix may use for a number, the printed one is the only shortest |
| Bytes.PlainIsDecimal | src/binary_blob.rs:66 | a numeral is the printed one if and only if it has no leading zero |
| Bytes.ParseUnsigned | src/binary_blob.rs:186 | `str::parse` for unsigned types: result bounded by the type's maximum, text ASCII and no shorter than the printed number |
| Bytes.ParseUnsignedInvertsDecimal | src/binary_blob.rs:186 | parsing a printed stream index gives it back |
| Bytes.ParseUnsignedIff | src/binary_blob.rs:186 | an unsigned number is read from exactly its numerals, leading zeros and one `+` allowed, up to the maximum |
| Bytes.ParseSignedIff | src/frame_stats.rs:285 | a signed one likewise, or from `-` and a numeral, down to one below minus the maximum |
| Bytes.CutAtLead | src/binary_blob.rs:101 | valid UTF-8 may be sliced at any byte that is not a continuation byte |
| CodePoints.EncodedIsValid | src/binary_blob.rs:72-88 | the UTF-8 of any code points, one to four bytes each by the ranges of section 3 of RFC 3629, is valid and counts as that many |
| CodePoints.ValidIffEncoded | src/binary_blob.rs:72-88 | valid text is exactly the encodings of lists of code points |
| CodePoints.ParserReadsCodePoints | src/binary_blob.rs:55-102 | elements given as code points, emoji and `;` alike, printed with their counts, parse back to their encodings |
| Wire.ReadElement | src/binary_blob.rs:55-102 | the two scanning loops of `element` compute the element specification for every text and offset |
| Wire.ElementSlicesOnBoundaries | src/binary_blob.rs:50-102 | every element accepted in a Rust string is a numeral, a dot, exactly that many code points and a terminator, sliced between code points wherever the scan began |
| Wire.ElementCopied | src/binary_blob.rs:55-102 | an element reads the same wherever its bytes are copied: the parser looks at nothing beyond it |
| Wire.ReadInstruction | src/binary_blob.rs:147-184 | the opcode, two-argument and walk-off loops read exactly one complete instruction, or nothing |
| Wire.ScanConcat | src/binary_blob.rs:132-149 | reading a run of complete instructions and then more equals reading both at once |
| Wire.EncodeInstruction | bench/guac-client.py:30-36 | the part list joined with commas is the printed instruction |
| Wire.ParserInvertsPrinter | src/binary_blob.rs:55-102 | parsing a printed instruction gives back its elements, whatever Unicode, `;`, `,`, `.` or digits they hold and whatever follows |
| Wire.ScanInvertsPrint | bench/guac-client.py:30-36 | scanning any list of printed instructions returns exactly those, then the rest |
| Wire.BlobInstructionReads | src/h264_rewrite.rs:238-245 | the `blob` text the rewriter formats by byte length parses back to its two arguments |
| Wire.BlobInstructionIsMinimal | src/binary_blob.rs:55-102 | an instruction is never shorter than the canonical print of its first three ASCII elements, and as long only if it is that print |
| Base64.DecodeInvertsEncode | src/binary_blob.rs:200-204 | decoding what was encoded gives the bytes back |
| Base64.EncodeInvertsDecode | src/binary_blob.rs:200-204 | the strict engine accepts only canonical text: encoding a decoded payload reprints it |
| Base64.Encode | src/frame_stats.rs:354-359 | base64 output is ASCII and exactly four characters per started three bytes |
| Base64.AlphabetIsExact | src/binary_blob.rs:200 | the alphabet is A to Z, a to z, 0 to 9, `+`, `/`, and nothing else has a value |
| Base64.QuadIsBase64 | src/binary_blob.rs:200 | the four symbols of three bytes are their 24 bits in base 64, most significant first |
| Base64.EncodeGroup | src/frame_stats.rs:354-359 | every group of an encoding is that of its three bytes, with `=` for what carries no bit |
| BlobSplitter.FrameRoundTrip | src/binary_blob.rs:105-113 | the client, which drops frames of another version or type, reads index and payload back out of every frame; the reserved bytes are zero |
| BlobSplitter.OpcodesAreSpelled | src/binary_blob.rs:188-195 | the opcodes and delimiters are the characters the source writes |
| BlobSplitter.Splitter.SplitText | src/binary_blob.rs:139-220 | the loop with its pending cursor returns the merged per-instruction pieces and leaves the specified streams open |
| BlobSplitter.LoopIsMergedPieces | src/binary_blob.rs:139-220 | the cursor form equals the simple form: one piece per instruction, adjacent text merged |
| BlobSplitter.ChunkingIndependence | src/binary_blob.rs:115-220 | cutting at any instruction boundary changes neither the frames, up to merging adjacent text, nor the open streams |
| BlobSplitter.LiftsExactlyOpenBlobs | src/binary_blob.rs:186-213 | an instruction becomes a binary frame of a stream if and only if it is a decodable blob on it and the stream's last `h264`, `audio` or `end` before it opened it |
| BlobSplitter.StreamsLeftOpen | src/binary_blob.rs:188-194 | the set carried to the next read is exactly the indices whose last word was an opening |
| BlobSplitter.PiecesFollowInstrs | src/binary_blob.rs:147-213 | the pieces follow the parsed instructions one for one |
| BlobSplitter.SplitCoversInput | src/binary_blob.rs:134-220 | frames stand for consecutive stretches of the input, in order and covering it, binary ones for one complete blob instruction each, whose blob the client reads; no text frame is empty and no two are adjacent |
| BlobSplitter.ReprintIsMinimal | src/binary_blob.rs:196-213 | a lifted blob is its re-encoding, byte for byte, if and only if it has exactly two arguments, plain lengths and a plain index; else the re-encoding is shorter |
| BlobSplitter.SplitIsLossless | src/binary_blob.rs:105-220 | re-encoding every frame restores the input byte for byte, malformed tail included, if and only if every lifted blob had two arguments and plain numerals |
| BlobSplitter.ChunkedSplitIsOneSplit | src/binary_blob.rs:115-220 | any number of reads cut at instruction boundaries give the frames of one call on the whole, up to merging adjacent text |
| BlobSplitter.RecordingRoundTrips | src/binary_blob.rs:363-433 | a recording fed read by read and re-encoded from its frames comes back byte for byte if and only if every lifted blob had two arguments and plain numerals |
| SpsRewriter.SpsRangeIsFirstUnit | src/h264_sps.rs:776-815 | the range found is the payload of the first type-7 unit, up to the next start code, and None means there is no such unit with a payload |
| SpsRewriter.HiddenSps | src/h264_sps.rs:777-796 | an access unit whose SPS stands right behind a zero header byte, in which none is found |
| SpsRewriter.Rewriter.RewrittenPayload | src/h264_rewrite.rs:260-319 | decode, locate, decide, the three edits in turn, splice and encode match the payload specification and its new state |
| SpsRewriter.Rewriter.RewriteText | src/h264_rewrite.rs:172-256 | the loop returns None exactly when nothing was edited and otherwise the full scan's text, with its new state |
| SpsRewriter.Rewriter.NoteEdit | src/h264_rewrite.rs:149-156 | an edit is recorded and queued for report the first time only |
| SpsRewriter.Rewriter.TakeEdits | src/h264_rewrite.rs:143-147 | returns what waits and empties it |
| SpsRewriter.Rewriter.SetAllowFrameNumGaps | src/h264_rewrite.rs:158-162 | changes that flag and nothing else |
| SpsRewriter.LoopIsFullScan | src/h264_rewrite.rs:180-256 | the lazily created output and pending cursor equal copying or re-printing each instruction |
| SpsRewriter.UneditedIsInput | src/h264_rewrite.rs:164-172 | when nothing was edited the output is the input |
| SpsRewriter.FullScanConcat | src/h264_rewrite.rs:172-256 | scanning two runs with the state carried over equals one scan of both |
| SpsRewriter.FastPathRefinesFullScan | src/h264_rewrite.rs:172-178 | over any session in which every scanned chunk finds the tracked streams to be the open ones, the early return changes no output |
| SpsRewriter.EarlyReturnShowsIff | src/h264_rewrite.rs:158-178 | after any such session, gaps going on and off in it, asking for gaps gives the full scan's output for every continuation if and only if the tracked streams are the open ones |
| SpsRewriter.SkippedChunksShowIff | src/h264_rewrite.rs:172-178 | chunks skipped by the early return are never missed if and only if the streams they open and end cancel out |
| SpsRewriter.SkippedOpeningOrEndShows | src/h264_rewrite.rs:172-178 | skipping one opening of an untracked stream, or one end of a tracked one, shows in some continuation |
| SpsRewriter.ChunkedRewriteIsOneScan | src/h264_rewrite.rs:172-311 | for a fixed gaps setting, any division at instruction boundaries gives the output of one call, and of one full scan, on the whole |
| SpsRewriter.PayloadEdit | src/h264_rewrite.rs:311-318 | a new payload decodes to the old bytes with only the SPS range replaced |
| SpsRewriter.BlobIsEditedExactly | src/h264_rewrite.rs:272-318 | a blob with an SPS is replaced if and only if a wanted edit has something to do; the SPS then is gaps(reordering(colour(x))), each applied only when wanted by the first readable SPS or by the gaps setting; exactly the edits made are recorded |
| SpsRewriter.OthersAreLeftAlone | src/h264_rewrite.rs:222-275 | any other instruction, and an SPS that cannot be read before a decision, changes nothing but the streams tracked |
| SpsRewriter.TrackedIsOpen | src/h264_rewrite.rs:222-232 | the streams tracked are exactly those whose last `h264` or `end` was an `h264` |
| SpsRewriter.OutputReparses | src/h264_rewrite.rs:172-256 | the output re-parses to the rewritten instructions, in order, ending in the same malformed tail |
| SpsRewriter.RewritePreserves | src/h264_rewrite.rs:222-250 | every instruction is kept, or is a blob on an h264 stream open at that point with only its SPS bytes replaced |
| SpsRewriter.RewritePreservesStructure | src/h264_rewrite.rs:164-319 | one call keeps the instructions, their order, the malformed tail, and which instructions the splitter downstream lifts and on which streams |
| SpsRewriter.SplitAfterRewrite | src/websocket.rs:748-780 | each read rewritten and then split, gaps going on and off, sends the frames of one split of everything rewritten, up to merging adjacent text |
| SpsRewriter.PipelineIsOnePass | src/websocket.rs:748-780 | for a fixed gaps setting these are the frames of rewriting and splitting the whole stream at once, and binary frames are the instructions a splitter alone would have lifted, on the same streams |
| SpsRewriter.DecisionIsFinal | src/h264_rewrite.rs:273-282 | what the first readable SPS decided about colour and reordering holds for the session |
| SpsRewriter.EachEditReportedOnce | src/h264_rewrite.rs:143-156 | over a whole session no edit is reported twice |
| InstructionStarts.Iterator.Next | src/frame_stats.rs:606-633 | yields the current start and moves past one instruction, or to the end on a malformed one |
| InstructionStarts.CollectStarts | src/frame_stats.rs:598-634 | the whole iteration yields the specified offsets |
| InstructionStarts.ParsersAgreeOnAscii | src/frame_stats.rs:639-656 | on any element `element` accepts, `split_element` gives the same result if and only if the value is ASCII |
| InstructionStarts.StartsAreBoundaries | src/frame_stats.rs:587-634 | on any run of complete instructions with ASCII values the iterator yields exactly the boundaries the splitter walks |
| InstructionStarts.StartsFollowSemicolons | src/frame_stats.rs:606-633 | whatever the text, every start but the first is right behind a `;`, and a malformed instruction is the last yielded |
| FrameStats.PeakIsTrue | src/frame_stats.rs:343-346 | `max_outstanding` is at least the backlog after every prefix of the run, and equal to it after some |
| FrameStats.MatchedFrames | src/frame_stats.rs:380-403 | in every run each matched ack carries the timestamp of the frame it is counted for, and the lag is the whole milliseconds between the two, capped |
| FrameStats.NothingEvictedEarly | src/frame_stats.rs:337-343 | pending are all frames sent since the last match, or the newest 512 of them |
| FrameStats.HandshakeAccounting | src/frame_stats.rs:334-412 | in every run pending frames are the newest sent, at most 512; acked plus outstanding never exceeds sent; no frame is acked twice or while pending, each by an ack that names it; every ack is counted once; the peak is the largest backlog of any moment |
| FrameStats.AckSupersedes | src/frame_stats.rs:380-394 | a matched ack leaves pending exactly the frames sent after the one it matched |
| FrameStats.LagFigures | src/frame_stats.rs:396-410 | in every run the last, largest and weighted mean lag are those of the matched acks, and the mean stays between the smallest and largest |
| FrameStats.Position | src/frame_stats.rs:382-385 | the first pending frame with the timestamp |
| FrameStats.OverpaintLoggingIsBounded | src/frame_stats.rs:522-584 | T after the first overpaint at most 20 details per started minute and one summary per started half minute; the first 20 hits all detailed and a summary always made; total equals hits and the sum of counts |
| FrameStats.DroppedOnlyWhenBusy | src/frame_stats.rs:541-556 | a hit goes without its line only if 20 lines went out within the last minute |
| FrameStats.SummariesAreDue | src/frame_stats.rs:559-577 | hits not yet summarised mean a summary within the last half minute, and every summary covers new hits |
| FrameStats.CountsAreHits | src/frame_stats.rs:538-539 | the count of each operation is its hits |
| FrameStats.LinesAreTrue | src/frame_stats.rs:553-577 | a detail line is about a draw that hit, with that layer's figures and the time since its last frame; a summary gives the counts |
| Telemetry.ScanChunk | src/frame_stats.rs:282-307 | one pass collects syncs, access units and, while watching, draws |
| Telemetry.SyncsAreInstructions | src/frame_stats.rs:282-288 | on any run of complete instructions with ASCII values, what is counted is the timestamps of its `sync` instructions, all and in order, and never text inside a value |
| Telemetry.UnitsAndDrawsAreInstructions | src/frame_stats.rs:289-306 | on such a run, if each instruction has the arguments read of it, the access units and draws counted are those of its own instructions, all and in order |
| Telemetry.PrintedChunkIsCounted | src/frame_stats.rs:282-307 | print any instructions with ASCII values and the telemetry counts exactly the syncs among them and, with full arguments, their access units and draws |
| Telemetry.UnitIsItsOwnIff | src/frame_stats.rs:289-298 | whatever follows it, an `h264` instruction announces its own access unit if and only if it has the three arguments read |
| Telemetry.DrawIsItsOwnIff | src/frame_stats.rs:462-500 | whatever follows it, a drawing instruction announces its own draw if and only if it has the arguments read or its layer is no number |
| Telemetry.BorrowedKeyframe | src/frame_stats.rs:678-684 | a bare `h264` followed by a sync is counted as a keyframe, its flag read from the sync |
| Telemetry.SyncAndUnitArguments | src/frame_stats.rs:282-298 | which argument is the timestamp, the layer and the keyframe flag |
| Telemetry.DrawArguments | src/frame_stats.rs:462-498 | for each of the six drawing instructions, which argument is the layer and which are logged |
| Telemetry.Stats.ObserveToBrowser | src/frame_stats.rs:273-350 | the object stays what the runs over everything seen say, with this chunk added, and the lines handed out are theirs |
| Telemetry.Stats.ReportOverpaint | src/frame_stats.rs:530-584 | the draw loop and the summary step match the report specification |
| Telemetry.Stats.SendFrames | src/frame_stats.rs:334-347 | evict, append and peak for each sync |
| Telemetry.Stats.ObserveToGuacd | src/frame_stats.rs:366-412 | the object stays what the runs over everything seen say, with these acks added |
| Telemetry.Stats.AcknowledgeFrame | src/frame_stats.rs:379-411 | one ack: first match, drain, lag, maximum and average, or an unmatched count |
| Telemetry.Stats.CountChunk | src/frame_stats.rs:273-350 | every field after a chunk for the browser |
| Telemetry.Stats.ObserveBinaryBlob | src/frame_stats.rs:353-364 | the saving is exactly what base64 would have added to the payload |
| Telemetry.SessionAccounting | src/frame_stats.rs:334-412 | after any calls, frames sent are the syncs of the texts shown, pending the newest of them, each ack counted once, the frames matched distinct, in order, no longer pending and carrying the timestamps of the acks that matched them, and the peak the largest backlog |
| Telemetry.SessionLags | src/frame_stats.rs:396-410 | after any calls, the lag figures are those of the acks that matched, the mean between the smallest and the largest |
| Telemetry.SessionLayers | src/frame_stats.rs:305-328 | after any calls, a layer is known if and only if access units went to it; its figures and the totals count them, and it knows when the last one was |
| Telemetry.SessionLogging | src/frame_stats.rs:522-584 | with a clock that never goes back, the lines handed out obey both rate limits, and the total is the draws that hit an H.264 layer and the sum of the counts |
| ChangeLog.AddressBookChanges.Record | src/api.rs:3383-3406 | appends the set to the history under one new version and keeps ring and watermark exact |
| ChangeLog.AddressBookChanges.ChangesSince | src/api.rs:3415-3455 | answers exactly as the unbounded history says, or refuses exactly when it must |
| ChangeLog.RingHoldsNewer | src/api.rs:3427-3436 | above a version the watermark admits, the ring holds the whole history |
| ChangeLog.WatermarkDecides | src/api.rs:3362-3365 | the watermark test is true if and only if a newer change was evicted or the version precedes leading empty sets |
| ChangeLog.RefusesOnlyWhenEvicted | src/api.rs:3427-3436 | with no empty set it refuses if and only if the page is ahead of the log or a newer change was evicted |
| ChangeLog.RefusesBeyond512 | src/api.rs:3397-3436 | with no empty set it refuses if and only if the page is ahead of the log or more than 512 changes behind |
| ChangeLog.EmptyFirstVersionRefuses | src/api.rs:3392-3395 | with an empty first set it refuses version 0 though nothing was evicted |
| ChangeLog.DedupIsExact | src/api.rs:3447-3449 | deduplication loses nothing, repeats nothing, and keeps the order of first mention |
| ChangeLog.VisibleRows | src/api.rs:3574-3605 | the filter loop matches its specification |
| ChangeLog.FilterIsTightAndComplete | src/api.rs:3568-3605 | the filter names only input Entries rows whose check succeeded, and covers every row but those denied or missing |
| ChangeLog.FilterIsExact | src/api.rs:3574-3605 | the All marker if and only if a row is All; the tree marker if and only if there are over 32 rows, a Tree row or one whose check failed; otherwise exactly the granted rows, in order, and no trace of a denied or missing one |
| ChangeLog.NoMissedChange | src/api.rs:3383-3605 | however polls and records interleave, every change since the page started was listed by the log, swallowed by an All row or covered by a refusal, and then shown, covered by a marker, or rightly withheld |
| EntryStore.MergeKeepsSecrets | src/api.rs:5241-5291 | every omitted top-level secret is kept; hop secrets by index exactly when a hop list is carried, else the list is dropped |
| EntryStore.MergeIsIdempotent | src/api.rs:5247-5291 | applying the same update again changes nothing |
| EntryStore.Store.MoveStoredEntry | src/api.rs:5631-5709 | copy refused leaves all as it was, with the status of its cause; a failed removal leaves both, success leaves only the target |
| EntryStore.Store.FindHolders | src/api.rs:5356-5378 | the scan over folders and names finds exactly the other entries with the id, or stops at a fault |
| EntryStore.Store.Relocate | src/api.rs:5324-5422 | in place, moved, incomplete or refused, each with its exact store; without faults it succeeds if and only if the id is here, nowhere, or on one entry and the target is free; a refusal is a conflict only on a clash, else a fault of that kind |
| EntryStore.Store.UpsertEntry | src/api.rs:5434-5470 | the store after every result under faults at any call, the cause of every rejection status, and exactly when it completes without faults |
| EntryStore.UpsertGuarantees | src/api.rs:5302-5470 | Rejected changed nothing; MoveIncomplete left original and identical copy; Ok leaves the id once, at the target, secrets kept, all else untouched |
| EntryStore.ClashIsTheRest | src/api.rs:5344-5420 | an id is updated in place, moved, or clashes, and exactly one of the three |
| EntryStore.UpsertKeepsIdsUnique | src/api.rs:5316-5422 | unique ids stay unique through an outcome if and only if it is not an incomplete move |
| EntryStore.DuplicateStays | src/api.rs:5344-5422 | an id stored twice stays stored twice through every outcome |
| EntryStore.SyncRunKeepsIdsUnique | src/api.rs:5424-5470 | over any run of requests, whatever fails, ids are unique in the end if and only if no move was reported incomplete |
| EntryStore.RetryLeavesTheDuplicate | src/api.rs:5344-5353 | after an incomplete move a repeated request finds the id in place and never removes the other copy |
| BulkMove.RenameCandidates | src/api.rs:5872-5884 | the loop builds the name and `name-2` to `name-99` |
| BulkMove.SuffixedNamesDiffer | src/api.rs:5868-5884 | no two suffixed candidates coincide, however the base was trimmed |
| BulkMove.CandidatesAreRenamed | src/api.rs:5868-5884 | each further candidate is the name, a dash and the plain number 2, 3, .. 99, the name cut only as far as 64 characters require |
| BulkMove.Suffixed | src/api.rs:5876-5880 | every suffixed candidate fits the 64-character limit |
| BulkMove.DeduplicateItems | src/api.rs:6112-6119 | each item once, none lost, in the order first named |
| BulkMove.StepKeepsInv | src/api.rs:5888-6073 | every store call of every item, failing or not, keeps the invariant |
| BulkMove.BulkOne | src/api.rs:5888-6073 | the calls one item makes are turns of the protocol and its verdict the one reached |
| BulkMove.BulkMoveLosesNothing | src/api.rs:5976-6137 | in every interleaving with any call failing, each entry is at its source or identical under its own chosen name; nothing in the target is overwritten or removed; nothing else appears |
| BulkMove.VerdictsAreTrue | src/api.rs:5983-6073 | each verdict says where the entry is and why: moved under its own name or a numbered one, with its copy, not removed after a fault, skipped only if there already or its one name taken, failed only if absent or a call failed, no free name only if all are taken |
| BulkMove.NoFreeNameMeansFull | src/api.rs:5911-5918 | "no free name" only when the target holds at least 98 entries |
| Credentials.PartitionWrites | src/api.rs:6661-6704 | the loop, in any iteration order, computes the order-free partition |
| Credentials.SaveOverridesView | src/api.rs:6661-6704 | the merged view becomes the old one overridden by non-blank values if and only if no blank key stands for an empty value |
| Credentials.SavePlacesKeys | src/api.rs:6646-6704 | touched keys live only where their scope selects; others unchanged; no empty value stored; with one store the shared map stays empty |
| Credentials.ScopeSelectsStore | src/api.rs:6686-6701 | with two stores a value goes to the shared one if its scope, or else the default, is "shared", otherwise to the local one, and never to both |
| Credentials.HalfWrittenSave | src/api.rs:6879-6901 | if only the local write lands, the view is right if and only if no key was on its way to the shared store with a new value |
| Credentials.MovedVariableIsLost | src/api.rs:6879-6901 | a variable moved from local to shared is in neither store when the second write fails |
| Credentials.Backends.PutMyCredentials | src/api.rs:6841-6905 | both stores after a save, for every call that may fail |
| Credentials.Backends.GetUserCredentials | src/api.rs:2675-2702 | the local-wins view of exactly the stores whose read succeeded |
| FolderWalk.GatherVariables | src/api.rs:6932-6951 | the stack walk ends and counts each variable as often as it occurs over the accessible reachable folders |
| FolderWalk.CountIsMultiplicity | src/api.rs:6940-6943 | a folder's variables are counted with their multiplicity |
| FolderWalk.ReachableIsClosed | src/api.rs:6932-6951 | the roots are reachable, and with a folder its children |
| FolderWalk.SiblingOrderDoesNotMatter | src/api.rs:6932-6951 | reordering siblings at any depth changes no count |
| FolderWalk.FolderOrDescendantAccessible | src/api.rs:2826-2851 | true exactly when the folder or something below it can be entered |
| FolderWalk.CountedFoldersAreShown | src/api.rs:2816-2851 | every counted folder lies below ancestors that are all shown |
| FolderWalk.ShownFoldersLeadSomewhere | src/api.rs:2816-2851 | every shown folder has an accessible one at or below it |
| Users.UserTable.FindUserForEmail | src/db.rs:575-598 | exact match, else the only one ignoring case, else none or ambiguous |
| Users.UserTable.UpsertUser | src/db.rs:633-674 | the table and outcome of a login |
| Users.UserTable.CreateUserRow | src/db.rs:703-718 | refused if the email exists in any case, else one new unbound row |
| Users.UserTable.ResetOidcSubject | src/db.rs:724-736 | unbinds the one user the email names, else nothing |
| Users.UserTable.DeleteUserRow | src/db.rs:894-908 | removes exactly the rows with that email |
| Users.EmailsStayUnique | src/db.rs:575-736 | every run keeps emails unique ignoring case, and no login is ambiguous |
| Users.SubjectStaysBound | src/db.rs:618-674 | over a run a bound subject changes only by a reset or deletion of that user |
| Users.BoundLogin | src/db.rs:646-652 | a login as a bound user succeeds if and only if it carries that subject or none; another is refused and changes nothing |
| Users.NoOtherSubjectLogsIn | src/db.rs:618-674 | at no point of a run does a login with another subject get in as a bound user |
| Users.FirstLoginBinds | src/db.rs:624-627 | a successful login with a subject leaves the row bound to it |
| Users.SameEmailIff | src/db.rs:586-587 | emails are the same if and only if they agree character by character, ASCII letters in either case |
| Users.LoginWrites | src/db.rs:646-672 | a login updates name and groups and neither email nor role nor any other row; a created user is as the login says; a failed one changes nothing; no account if and only if none is named and none may be created |
| Users.CreateAndDeleteWrite | src/db.rs:703-718 | a created user has the role given and no subject, refused if and only if the email exists in any case; a deletion takes exactly the rows with that very email |
| Users.ResetLetsAnotherIn | src/db.rs:724-736 | after a reset the next login as that user succeeds with any subject and binds it |
| Allocator.RangeAllocator.AllocateNumber | src/browser.rs:30-39 | the lowest free number, and None if and only if the range is full |
| Allocator.RangeAllocator.ReleaseNumber | src/browser.rs:41-44 | frees that number only |
| Allocator.BrowserManager.Spawn | src/browser.rs:98-424 | its effect is turns of its session; success holds one display and the port asked for, a failure at any of the exit points holds nothing and is named after what failed, and each refusal has its pool full |
| Allocator.BrowserManager.Kill | src/browser.rs:428-440 | its effect is the stop turns of a live session; frees what it held |
| Allocator.PoolsAreExact | src/browser.rs:107-440 | in every interleaving each in-use set is exactly the numbers held by live or in-flight sessions, distinct and in range |
| Allocator.RefusedOnlyWhenFull | src/browser.rs:107-126 | in every run a display, or a port, is refused if and only if sessions hold every number of that range |
| Allocator.NothingLeaks | src/browser.rs:350-440 | once all sessions are gone every number is free |
| Allocator.SecondKillIsHarmlessIff | src/browser.rs:428-440 | at any point of any run a second kill keeps the pools exact if and only if nobody holds that display now |
| Allocator.SecondKillStealsTheDisplay | src/browser.rs:428-440 | the run in which a session is killed, another is given its display, and after a second kill the next spawn is given it too |

## Left out

- HTTP handlers, role checks, audit lines, JSON and HTML: plumbing settled by reading one branch.
- The bits inside an SPS (`parse_sps` and the three edits): arbitrary functions here.
- `h264_refs`, `h264_aux_drop`, `last_instruction_boundary` and, of the proxy loop, all but the rewriter and the splitter in a row.
- The colour report `observe_h264_colour` and the text of log lines: settled by reading one function.
- `upsert_entry` without `move=true`, bulk copy and bulk delete: single store calls.
- Other writers to the entry store during an upsert or a bulk move, and rows edited outside this process.
- The 8-at-a-time limit of bulk requests: every interleaving is covered, so every limited one is.
- Restarts of the change log (the epoch) and the page's own JavaScript.
- Roles, disabled users, sessions and tokens in the user table, and non-ASCII case folding, which SQL `lower()` does not do either.
- Administrators, who bypass the folder check and see every folder.
- Processes, profile directories and login scripts of browser sessions; a kill in the runs is once per session, a second one is judged at a single point.
- Machine-width overflow of counters, and floating-point rounding of the lag average, which is taken over reals.
- EntryStore.Store.FolderPaths: lists the folders that hold entries, since empty folders add nothing to the scan.
