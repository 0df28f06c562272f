# A verified model of the typed-memory language-model server

This project models the parts of the repository whose correctness is a protocol, an invariant or an exact
transformation of bytes, and proves what they promise. The neural model is an abstract function from token prefixes to
tokens and answers; the tokenizer is a map from tokens to bytes together with an encoder that is constrained only by the
checks the code makes on it.

* **The reply controller** (`ReplyMachine`, `ReplySafety`, `Controller`): the propose/acknowledge state machine of one
  reply, its budgets, its route, and the append-only transport of a stored value (`ValueTransport`). The class
  `AutonomousValueController` is proved to be the machine; the machine's properties are proved over all sequences of
  calls, and `ReplyDecisions` states when each call is accepted and what it decides.
* **The teacher compiler and its audit** (`Teacher`, `DialogueSpans`) and the **simulation** between a compiled
  trajectory and the controller (`Replay`).
* **Streaming UTF-8 assembly** (`Utf8`, `StreamDecoder`, `Utf8Stream`, `ByteBuffer`): two stateful decoders against one
  meaning, and that meaning against section 4 of RFC 3629.
* **Session reuse and the generation loop** (`Generation`, `SessionServer`): three ways to reuse a key-value cache, and
  the loop that extends history, context and transcript together.
* **The typed-memory write path** (`TypedSpans`, `SpanMeanings`, `EventLog`, `Episodes`, `TypedMemory`, `MemoryWrites`,
  `MemoryRuns`, `MemorySession`): from token spans to byte spans, a write across three stores, snapshots, and the evidence
  that every event keeps. `SpanMeanings` says what a span is without its loops, and `MemoryWrites` which tokens each part of
  an event comes from and what a write leaves behind.
* **Batched decoding and its audit** (`PrefixWire`, `BatchedDecode`, `PanelReports`), the **weight container**
  (`UnicodeText`, `IndexLines`, `Container`) and **byte/token alignment** (`Alignment`).

`Bytes` and `Outcomes` hold shared vocabulary. Where the code updates state in place, a class or a loop follows it and
its contract ties it to a function; the lemmas are about that function.

Points at which the code does less than one might expect are stated as exact conditions, each with an input:

* the streaming decoders do not check the second byte of a character, so an encoded surrogate passes
  (`StreamDecoder.ValidOutputIff`; input: `StreamDecoder.SurrogatePassesDecoder`);
* the 256-byte piece that is streamed and appended to the transcript can lose a character that the reply text keeps, and
  ends at a zero byte (`StreamDecoder.PieceIsWholeIff`, `Generation.TranscriptGrowsByTextIff`; inputs:
  `StreamDecoder.PieceCanLoseText`, `Generation.TranscriptCanLoseText`);
* an autonomous write that the event store refuses leaves a raised priority behind when its text was stored before with
  a lower one (`TypedMemory.FailedRemember`; input: `MemoryRuns.PriorityStaysRaised`);
* a structured event may state a value other than the text it points at, and then its evidence check fails for ever
  (`TypedMemory.StructuredKeepsInv`; input: `MemoryRuns.MisstatedValue`);
* the batch auditor accepts a prefix of 128 tokens, which the batch run refuses (`BatchedDecode.AuditGap`; input:
  `BatchedDecode.AuditAcceptsTooLong`);
* tensor names with U+0085, U+2028 or U+2029 make an index that cannot be read (`IndexLines.IndexRoundTrip`; input:
  `IndexLines.NextLineTearsIndex`), so that appending and replacing write a file and then fail, as they do for a base with
  a doubled name (`Container.AppendThenRead`, `Container.ReplaceThenRead`; input: `Container.DoubledNameIsNotRead`);
* a base tensor that reaches beyond the payload is copied short by a replacement (`Container.SliceIsComplete`; input:
  `Container.ReplacementCanCutShort`).

## Model

| member | source | states |
|---|---|---|
| `ReplySafety.BudgetsRespected` | python/autonomous_value_controller.py:117-184 | in every state any sequence of calls can reach, generated tokens, prefix length and value activations stay within the configured budgets |
| `ReplySafety.FinalStates` | python/autonomous_value_controller.py:119-184 | WAIT_UNCERTAINTY is reachable only by route 2 with nothing generated, and no acknowledgement succeeds in WAIT_UNCERTAINTY, DONE or FAILED |
| `ReplySafety.RouteLatched` | python/autonomous_value_controller.py:129-135 | once a reply has a route, no call changes it |
| `ReplySafety.ReachableInv` | python/autonomous_value_controller.py:117-184 | the full invariant (budgets, cursor binding, pending decision, routing) holds after any sequence of calls on a new controller |
| `ReplySafety.ProposeKeeps` | python/autonomous_value_controller.py:117-161 | one proposal keeps the invariant and changes at most the route and an unstarted cursor; the prefix stays |
| `ReplySafety.CommitKeeps` | python/autonomous_value_controller.py:163-184 | one acknowledgement keeps the invariant; when it fails only state and pending decision change, when it succeeds the prefix grows by exactly the acknowledged token |
| `ReplySafety.ActivateReserves` | python/autonomous_value_controller.py:139-149 | a START binds a cursor whose whole value and the END after it fit the token and context budgets |
| `ReplySafety.PrefixIsPromptAndAcknowledged` | python/autonomous_value_controller.py:163-181 | over every run the prefix is the prompt followed by exactly the acknowledged tokens, each chosen for the prefix it extends |
| `ReplySafety.TransportIsExact` | python/autonomous_value_controller.py:123-149 | over every run the tokens from a START on decode to a prefix of the source bytes its frame named, to all of them once END is reached, and CONTINUE and END occur nowhere else |
| `ReplySafety.RouteZeroIsGreedy` | python/autonomous_value_controller.py:129-137 | a reply routed 0 is, for its whole run, the plain greedy continuation of the prompt |
| `ReplySafety.ValueTurnSucceeds` | python/autonomous_value_controller.py:121-128 | between START and END every sound frame yields the next value token, then END; no budget check can fail |
| `ReplySafety.ValueAlwaysCompletes` | python/autonomous_value_controller.py:121-147 | with EOS forbidden in values, from any invariant state inside a value the remaining tokens and the END all go out |
| `ReplySafety.ReachableValueCompletes` | python/autonomous_value_controller.py:121-181 | the same from any state reached by calls: a committed START is always followed through to its END within the budgets |
| `Controller.AutonomousValueController.Propose` | python/autonomous_value_controller.py:117-161 | the object after the call, and the returned decision or exception, are those of the state machine; a new decision object is pending unless it asks for uncertainty |
| `Controller.AutonomousValueController.Commit` | python/autonomous_value_controller.py:163-184 | an accepted acknowledgement named the identical pending object and its own token, and extends the prefix by it; a refused one fails the reply; nothing stays pending; the whole object is that of the state machine |
| `Controller.AutonomousValueController.Pick` | python/autonomous_value_controller.py:123-150 | choice between END, CONTINUE, plain token, uncertainty and START, with the route and cursor it leaves behind even when a check raises |
| `Controller.AutonomousValueController.Start` | python/autonomous_value_controller.py:138-149 | a START sets nothing but the cursor, and only when the whole predicted value compiles within the remaining budgets |
| `ReplyDecisions.CommitIff` | python/autonomous_value_controller.py:163-184 | from every state of the invariant an acknowledgement is accepted if and only if it names the pending decision itself and its token; what acceptance makes of state, prefix and activations is written out, and a refusal leaves FAILED with nothing pending |
| `ReplyDecisions.AcceptedIsGenuine` | python/autonomous_value_controller.py:163-184 | the same in every state that any sequence of calls can reach: another decision object, equal or older, is never accepted |
| `ReplyDecisions.RefusedUnlessAllowed` | python/autonomous_value_controller.py:117-122 | a proposal out of turn, on an unsound frame, for another prefix, of another origin or beyond a budget fails the reply |
| `ReplyDecisions.ValueIsContinued` | python/autonomous_value_controller.py:123-128 | inside a value the next of its tokens is proposed, and END behind the last |
| `ReplyDecisions.PlainProposal` | python/autonomous_value_controller.py:129-161 | outside a value: route 0 always proposes the most likely token; the uncertainty decision is made exactly when the reader routes 2 and the reply has no other route; a changed or unknown route fails |
| `ReplyDecisions.StartProposal` | python/autonomous_value_controller.py:138-149 | a START is proposed if and only if the named value fits, with the first of its tokens, below the bound on reads and within both budgets including the END |
| `ReplyDecisions.ActivateIff` | python/autonomous_value_controller.py:139-149 | a cursor is bound exactly for the tokens that spell the named bytes and fit all limits |
| `ValueTransport.Selected` | python/value_transport.py:126-140 | the selected bytes are the slice of the stored fact, inside it |
| `ValueTransport.SelectedIsText` | python/value_transport.py:137-140 | checking two prefixes is enough: the selected slice itself is well-formed UTF-8 |
| `ValueTransport.EncodeValue` | python/append_value_transport.py:15-29 | accepted token suffixes decode to exactly the value bytes |
| `ValueTransport.CompileAppend` | python/append_value_transport.py:32-59 | an accepted cursor carries exactly the selected bytes, only permitted tokens, and fits all three limits |
| `ValueTransport.SuffixDependsOnValueOnly` | python/append_value_transport.py:49-59 | the token suffix is a function of the value alone, whatever prefix and limits it was compiled for |
| `ValueTransport.EncodeValueIff` | python/append_value_transport.py:15-29 | an encoding succeeds exactly with the tokens that the tokenizer puts behind a framed, blocked boundary token and that spell the value |
| `ValueTransport.CompileAppendIff` | python/append_value_transport.py:32-59 | a cursor is compiled if and only if handle, prefix, tokens and limits meet the written-out conditions, and then it stands before the first token |
| `ValueTransport.CursorMeans` | python/value_transport.py:235-247 | a cursor answers for one prefix only, selects the next token of its value, and accepts that one alone |
| `ValueTransport.CursorNeedsItsValue` | python/value_transport.py:235-247 | against facts that no longer hold its value a cursor neither selects nor accepts |
| `Teacher.PositiveBytesTime` | python/compile_time_scoped_teacher.py:16-32 | fact and value spans are exact slices of the source, the value inside the clause, for a fact of the asked subject, relation and time |
| `Teacher.SplitReply` | python/compile_time_scoped_teacher.py:67-72 | the reply is the value with what precedes and follows it |
| `Teacher.CompileTeacher` | python/compile_time_scoped_teacher.py:54-102 | the list-building compiler computes the specified trajectory |
| `Teacher.StepCursor` | python/compile_time_scoped_teacher.py:81-89 | stepping the cursor to its end gives the value tokens with one START and CONTINUEs |
| `Teacher.TeacherParts` | python/compile_time_scoped_teacher.py:72-102 | completion, phases and idle targets of a compiled reply, stretch by stretch; no forbidden token before the final EOS |
| `Teacher.StretchesSpellReply` | python/compile_time_scoped_teacher.py:97-98 | prefix, value and suffix tokens always decode to the response, so that closing check never fires |
| `Teacher.PhasesShape` | python/compile_time_scoped_teacher.py:72-96 | phases form GENERATE* START CONTINUE* END GENERATE*, also when END falls on the EOS |
| `Teacher.AuditRecord` | python/audit_value_teacher_trajectories.py:50-69 | the auditor's chain of checks decides `AuditAccepts` |
| `Teacher.TeacherPassesAudit` | python/audit_value_teacher_trajectories.py:50-68 | every compiled supported reply is constructible and is accepted by the independent audit exactly when the claim is the sliced value |
| `Teacher.ResolvedTeacherPassesAudit` | python/compile_time_scoped_teacher.py:18-102 | compiled with the targets of the time-scoped resolver, a reply is accepted by the audit exactly when the claim is the value of the one actual fact at the asked time |
| `Teacher.PlainTeacherPassesAudit` | python/audit_value_teacher_trajectories.py:57-69 | every compiled reply without a value is constructible and accepted |
| `Teacher.PositiveIff` | python/compile_time_scoped_teacher.py:18-33 | the resolver succeeds exactly when one fact is wanted, its sentence stands once in the source and its value once in the sentence |
| `Teacher.PositiveAt` | python/compile_time_scoped_teacher.py:18-33 | and then names exactly those places |
| `Teacher.SplitIff` | python/compile_time_scoped_teacher.py:48-72 | a reply is split at the value exactly when the named bytes stand in it once and no reserved marker occurs, and into the parts around that place |
| `Teacher.TeacherIff` | python/compile_time_scoped_teacher.py:46-102 | a supported reply compiles exactly when there are tokens for its three stretches within all limits and the stop token is the known one |
| `Teacher.TeacherAt` | python/compile_time_scoped_teacher.py:72-102 | and then its trajectory is these tokens and the stop token, with phases and targets laid out around the value |
| `Teacher.PlainTeacherIff` | python/compile_time_scoped_teacher.py:48-102 | a reply without a value compiles exactly when it is unmarked, can be written, and fits |
| `Teacher.AuditMeans` | python/audit_value_teacher_trajectories.py:53-68 | the audit of a supported record accepts exactly the trajectories GENERATE* START CONTINUE* END GENERATE* with mode targets 0, 1, none and 0, spelling the reply and the claimed value at its place in the source |
| `Teacher.PlainAuditMeans` | python/audit_value_teacher_trajectories.py:53-69 | without a value it accepts exactly the whole reply and stop token, all GENERATE, all zero |
| `Replay.SameValueTokens` | python/autonomous_value_controller.py:141-149 | the neural handle compiles, from the decoded prefix, to the same tokens as the gold handle from the prompt text |
| `Replay.BindsCompiledCursor` | python/autonomous_value_controller.py:138-149 | at the START frame the controller binds the very cursor that the compiler stepped |
| `Replay.ReplayUpTo` | python/autonomous_value_controller.py:117-181 | after any number of positions the controller stands exactly where the trajectory does |
| `Replay.TrajectoryReplays` | python/compile_time_scoped_teacher.py:58-102 | given frames that follow a compiled trajectory and budgets that hold it, the controller emits exactly its tokens, by actions matching its phases one for one, and ends DONE |
| `StreamDecoder.ChunkingIrrelevant` | examples/openai_server.c:263-341 | the assembled text and the pending bytes do not depend on how the stream is cut into pieces |
| `StreamDecoder.DecodeAppend` | examples/openai_server.c:291-337 | decoding a concatenation is decoding the parts with the pending bytes carried over |
| `StreamDecoder.AgreesWithLongestValidPrefix` | python/check_free_reply_protocol.py:88-95 | on every prefix of a valid stream the text is what the longest-valid-prefix helper returns and the pending bytes are its dropped tail, at most three |
| `Utf8.PrefixOfUnfinished` | python/check_free_reply_protocol.py:88-95 | dropping bytes one by one finds whole characters before an unfinished one |
| `StreamDecoder.OutputIsGrouped` | examples/openai_server.c:291-323 | on arbitrary bytes the text is made only of complete lead-plus-continuation groups |
| `StreamDecoder.OutputIsSubsequence` | examples/openai_server.c:291-323 | on arbitrary bytes text and pending bytes are a subsequence of the input |
| `StreamDecoder.DecodeIdempotent` | examples/openai_server.c:291-337 | decoding its own output changes nothing; the unchanged texts are exactly the concatenations of complete groups |
| `StreamDecoder.ValidOutputIff` | examples/openai_server.c:251-337 | what a call writes is valid UTF-8 if and only if no complete lead-plus-continuation group of the unfinished bytes and the new ones has a second byte that RFC 3629 forbids, which the decoder does not check |
| `StreamDecoder.SurrogatePassesDecoder` | examples/openai_server.c:251-261 | an encoded surrogate is let through |
| `StreamDecoder.PieceIsWholeIff` | examples/openai_server.c:263-341 | for any unfinished bytes and any input, the streamed piece is the text added by the call if and only if that text fits the buffer with its terminator and the input holds no zero byte; it is never longer |
| `StreamDecoder.PieceCanLoseText` | examples/openai_server.c:263-341 | a call with 255 bytes that end an unfinished character adds 256 bytes to the text and hands out fewer; a zero byte is added and not handed out |
| `StreamDecoder.WritesAllGroups` | examples/openai_server.c:291-323 | on any bytes the text is all complete lead-plus-continuation groups of the input, wherever they begin, found without any state |
| `StreamDecoder.HoldsBackTail` | examples/openai_server.c:291-323 | what is held back is the unfinished group at the end of the input, if there is one |
| `Utf8.PrefixMeans` | python/check_free_reply_protocol.py:88-95 | on any bytes the helper drops the least number of bytes, at most four, that leaves valid text, and everything when there is none |
| `Utf8Stream.ReplyText.Take` | examples/openai_server.c:291-323 | one turn of the loop completes a group, holds a byte back, drops it, or asks to read it again |
| `Utf8Stream.ReplyText.AppendAll` | examples/openai_server.c:291-337 | the byte loop with re-reading terminates and adds exactly the decoded text |
| `Utf8Stream.ReplyText.AppendDecoded` | examples/openai_server.c:263-341 | reply text, pending bytes and output piece after a call, also when the output buffer is the input buffer |
| `Utf8Stream.ConsoleText.PrintDecoded` | examples/minimal_generate.c:63-91 | the second implementation writes the same decoded text and keeps the same pending bytes |
| `ByteBuffer.Buffer.Append` | examples/openai_server.c:163-181 | contents grow by exactly the given bytes, stay terminated, and capacity never shrinks; it refuses only near the address limit, changing nothing |
| `ByteBuffer.Buffer.Replace` | examples/openai_server.c:187-200 | contents become exactly the given bytes, terminated, whatever they were |
| `Generation.PrepareIsReady` | examples/openai_server.c:596-767 | after a successful preparation the context holds the recorded history with room for every token still allowed |
| `Generation.StepKeepsReady` | examples/openai_server.c:769-847 | one decode step keeps that, extends history and count together, and can fail only by sampling |
| `Generation.LoopIsSafe` | examples/openai_server.c:788-846 | the decode loop never exceeds the context, ends within the budget, and reports a length stop exactly when it emitted every allowed token |
| `Generation.ReplyIsSampled` | examples/openai_server.c:788-846 | over a run every emitted token is what the model samples after exactly the tokens before it and their last `repeat_last_n`, and none is a stop token; the reply ends by itself if and only if the next sample is a stop token, fails if and only if sampling does, and stops at the budget otherwise |
| `Generation.PrepareMeans` | examples/openai_server.c:596-767 | a prompt is accepted if and only if it can be tokenized, adds or reuses a token, and leaves room for its budget; history and context grow by the written-out tokens, with a BOS only on an empty history, and the transcript becomes the prompt or grows by it |
| `Generation.PrepareOnceMeans` | examples/openai_server.c:683-741 | without a session: acceptance, shrunken budget and context size as numbers |
| `Generation.RequestMeans` | examples/openai_server.c:877-908 | a whole request records the tokens of the prompt and a greedy reply within the budget, and the transcript gains what was streamed; a refused one changes nothing but a reset |
| `Generation.TextIsDecodedStream` | examples/openai_server.c:809-818 | the reply text is the decoded byte stream of the emitted tokens |
| `Generation.TranscriptIsStreamed` | examples/openai_server.c:809-839 | over a run the transcript grows by exactly what was streamed for the emitted tokens |
| `Generation.TranscriptGrowsByTextIff` | examples/openai_server.c:809-839 | over a run the transcript grows by exactly the reply text if and only if the piece of no emitted token was cut, by the buffer size or by a zero byte |
| `Generation.TranscriptCanLoseText` | examples/openai_server.c:596-847 | a whole two-token reply after which transcript and prompt plus reply text differ |
| `Generation.TokenReuseIsFromScratch` | examples/openai_server.c:668-690 | reusing a token prefix leaves the state that evaluating the whole prompt in a new session leaves |
| `Generation.ReuseLeavesPrompt` | examples/openai_server.c:659-690 | both reuse paths leave the transcript equal to the prompt and evaluate no cached token twice |
| `Generation.CacheAgrees` | examples/openai_server.c:596-847 | after any sequence of requests the evaluated tokens are the recorded history, and an empty history has an empty transcript |
| `Generation.ContinuationIsServedFromCache` | examples/openai_server.c:659-667 | a prompt that continues the transcript is served by evaluating only its suffix |
| `Generation.ReuseIsTransparent` | examples/openai_server.c:668-676 | on the token-prefix path a request leaves the same session as after a reset |
| `SessionServer.Session.Reset` | examples/openai_server.c:351-358 | context, history and transcript are empty again |
| `SessionServer.GenerationState.Announce` | examples/openai_server.c:809-818 | the token's bytes are decoded in place: the buffer given as input is the output |
| `SessionServer.GenerationState.Record` | examples/openai_server.c:819-846 | history, context, transcript and counters after a token, or the failure and what it leaves behind |
| `SessionServer.GenerationState.Step` | examples/openai_server.c:769-847 | one step of the record in place is one step of the specification, which `Generation.ReplyIsSampled` describes by the model alone |
| `SessionServer.PrepareGeneration` | examples/openai_server.c:596-767 | session, record and failure as specified for the three reuse paths |
| `SessionServer.PrepareOneShot` | examples/openai_server.c:683-741 | the same without a session, with a context made to measure |
| `SessionServer.GenerateText` | examples/openai_server.c:877-908 | a whole request: the session is as specified and the text is returned exactly when the loop finished |
| `TypedSpans.TokenSpanToSource` | examples/openai_server.c:1980-2033 | the loops compute the specified source span in all three modes |
| `TypedSpans.ExpandValue` | examples/openai_server.c:1998-2008 | character alignment, then Latin word completion, on both sides |
| `TypedSpans.ExpandEntity` | examples/openai_server.c:2009-2025 | word completion and removal of a possessive ending |
| `TypedSpans.DecodeSource` | examples/openai_server.c:1930-1978 | concatenated pieces, their offsets, and the source found at the visible end |
| `TypedSpans.DecodedMeans` | examples/openai_server.c:1946-1977 | every token spells its own stretch of the text and the visible text ends with the source |
| `SpanMeanings.DecodedSpanIff` | examples/openai_server.c:1990-2025 | in each mode the mapping of a token span is the one span meeting a definition without loops: trimmed; out of the cut characters and over whole word runs; or over whole words less a possessive ending |
| `SpanMeanings.SourceSpanIff` | examples/openai_server.c:1980-2033 | a token span is mapped to bytes of the source exactly when it stands for some, and the source has there the decoded bytes |
| `SpanMeanings.ValueSpanBoundaries` | examples/openai_server.c:1917-2008 | in valid text alignment crosses at most three continuation bytes of one character on either side, completion adds only whole word characters, and both ends fall between characters (the start exactly unless the source itself starts inside one) |
| `SpanMeanings.WordWidthIff` | examples/openai_server.c:1918-1928 | a word character is an ASCII letter, digit, underscore, hyphen or apostrophe, or the encoding of a letter U+00C0..U+02AF |
| `SpanMeanings.DecodedIff` | examples/openai_server.c:1930-1978 | the source is found exactly when all tokens decode and their visible text ends with it and holds it nowhere before |
| `TypedSpans.GrowRightIsMaximal` | examples/openai_server.c:2007-2008 | rightward growth adds only word characters and stops only where none follows |
| `TypedSpans.NormalizePredicateSpan` | examples/openai_server.c:2047-2074 | the loop computes the specified normal form |
| `TypedSpans.NormalPredicate` | examples/openai_server.c:2047-2074 | a normalised predicate is lower-case words joined by single underscores, no longer than its span, independent of ASCII case, and its own normal form |
| `SpanMeanings.PredicateMeans` | examples/openai_server.c:2047-2074 | the normal form is the longest runs of letters and digits in lower case, any other bytes between two of them one underscore; refused if there is none or it does not begin with a letter |
| `TypedSpans.ExpandLeadingArticle` | examples/openai_server.c:2092-2119 | the start moves left over one whole word that is an article, and only then |
| `TypedSpans.ArticleMeans` | examples/openai_server.c:2092-2119 | the start moves if and only if a whole article and then only spaces stand before it, and then to the start of that article |
| `SpanMeanings.ArticleSpelled` | examples/openai_server.c:2092-2119 | the articles are "a", "an" and "the", in any mixture of cases |
| `EventLog.LoadableMeans` | src/metis/event_store.c:357-467 | a stored log is accepted exactly when identifiers are unique, each closing event names an earlier, still open statement of the same fact, and the current events are those that none closes |
| `EventLog.ReplayMeans` | src/metis/event_store.c:447-457 | replay accepts exactly such statements and computes exactly those flags |
| `EventLog.AcceptableFollows` | src/metis/event_store.c:157-190 | what the store accepts can be read off the statements alone |
| `EventLog.ApplyKeepsLoadable` | src/metis/event_store.c:157-206 | appending to a loadable log leaves a loadable log |
| `EventLog.ApplyStatements` | src/metis/event_store.c:190-206 | an append changes no statement already there |
| `EventLog.ApplyCloses` | src/metis/event_store.c:157-206 | an accepted event becomes the last one, current unless it is a retraction; an assertion changes no flag, any other event closes exactly the current event on the same fact that it targets |
| `EventLog.EventStore.Append` | src/metis/event_store.c:157-206 | the event is appended and its target closed, or nothing changes |
| `EventLog.EventStore.Find` | src/metis/event_store.c:143-150 | first event with the identifier |
| `EventLog.EventStore.Load` | src/metis/event_store.c:357-467 | the log is replaced by the stored one exactly when that is loadable, else kept |
| `Episodes.AddIsSound` | src/metis/episodic_store.c:114-185 | storing a text keeps records distinct, bounded and in place, and returns the index of the text with at least the given priority |
| `Episodes.TruncateUndoesAdd` | src/metis/episodic_store.c:102-185 | cutting back undoes an addition exactly unless the text was already stored with a lower priority |
| `Episodes.ReplayIsExact` | src/metis/episodic_store.c:231-325 | a snapshot of records loads unchanged exactly when a store could hold them |
| `Episodes.EpisodicStore.AddIndexed` | src/metis/episodic_store.c:114-185 | a known text is found and its priority raised, a new one appended, or nothing changes |
| `Episodes.EpisodicStore.CutBack` | src/metis/episodic_store.c:102-112 | the records after the given count are dropped |
| `Episodes.EpisodicStore.Load` | src/metis/episodic_store.c:231-325 | the records become the stored ones, each added afresh, or stay |
| `TypedMemory.UniqueSpanMeans` | examples/openai_server.c:1845-1856 | a span is found exactly when the text occurs at one place, overlapping occurrences counted |
| `TypedMemory.ResolveEvidence` | examples/openai_server.c:1870-1910 | accepted spans are the exact bytes of subject and value text in the source |
| `TypedMemory.DraftFits` | examples/openai_server.c:2227-2361 | every drafted event has its subject span in the text, its value equal to the bytes at its value span, and in resident mode is an assertion |
| `TypedMemory.DraftMeans` | examples/openai_server.c:2227-2361 | a new statement is about the entity and relation found in the text; a replacement is linked to an existing event and takes both from it; the time is a date of the text or unknown |
| `TypedMemory.SaveKeepsInv` | examples/openai_server.c:2362-2389 | storing record and event keeps the memory invariant exactly if the event fits the text, and always when it fails |
| `TypedMemory.RememberKeepsInv` | examples/openai_server.c:2165-2389 | an autonomous write keeps the invariant whatever the models answer |
| `TypedMemory.FailedRemember` | examples/openai_server.c:2331-2389 | a failed write changes nothing, except exactly in the stated case: the event store refuses, and the text was already stored with a lower priority, which stays raised |
| `TypedMemory.StructuredKeepsInv` | examples/openai_server.c:2706-2848 | a structured event keeps the invariant exactly when its `value_text` is its `value`, and a refused one changes nothing |
| `TypedMemory.ImportKeepsInv` | examples/openai_server.c:1680-1725 | an import is checked completely before it replaces anything, and keeps the invariant |
| `TypedMemory.ExtractMeans` | examples/openai_server.c:1603-1623 | reading a value back yields the exact stored bytes, and fails exactly when the span is unknown |
| `MemoryWrites.CompileFieldsIff` | examples/openai_server.c:2233-2284 | an autonomous event is compiled exactly when its tokens can be read, and then each field comes from its own tokens: the subject from the entity tokens, or from the anchor exactly when those map to nothing; the predicate from the relation tokens; the evidence from the value tokens and an article before them; the time from the time tokens if they form a date |
| `MemoryWrites.DraftIff` | examples/openai_server.c:2214-2361 | a draft exists exactly then and when the event can be placed: its statement is written out field by field, and a change takes identity, entity and relation from the very event selected |
| `MemoryWrites.DateIff` | examples/openai_server.c:2076-2090 | a time is four digits, a hyphen, two digits, a hyphen, two digits |
| `MemoryWrites.DigitsMean` | examples/openai_server.c:2285-2293 | numbers in invented names are decimal without leading zeros |
| `MemoryWrites.AddIff` | src/metis/episodic_store.c:114-185 | a text is recorded exactly within the limits: where it already stands, with the higher priority, or behind the others |
| `MemoryWrites.AppendIff` | src/metis/event_store.c:157-206 | an event is accepted exactly when its strings, predicate and spans are well formed, its name is new, there is room, and it closes nothing or a current event on the same fact |
| `MemoryWrites.SaveMeans` | examples/openai_server.c:2362-2389 | a write succeeds exactly when its text can be recorded and its event appended; the event cites that record, and in resident mode the slot with its number is its own |
| `MemoryWrites.DuplicateIff` | examples/openai_server.c:2197-2213 | a repetition is a plain unnamed observation that a current event says, in resident mode the very last |
| `MemoryWrites.RememberMeans` | examples/openai_server.c:2165-2389 | a repetition changes nothing and is answered with its event; any other write succeeds exactly when it can be drafted, recorded and appended, and leaves just that |
| `MemoryWrites.CitedIff` | examples/openai_server.c:2728-2804 | the cited record is the request's own text at its place, or the stored one with the requested number, taken into range |
| `MemoryWrites.EvidenceSpansIff` | examples/openai_server.c:1870-1910 | subject and value are placed at the given spans, or where they alone occur, and the text stands there |
| `MemoryWrites.ResolveIff` | examples/openai_server.c:2728-2836 | a structured event is resolved exactly to its own statement with the cited record, the found spans, and the selected event as target when one is looked for |
| `MemoryWrites.StructuredMeans` | examples/openai_server.c:2728-2848 | it is stored exactly when it can be resolved, recorded and appended, and changes nothing else |
| `MemoryWrites.ExtractIff` | examples/openai_server.c:1607-1619 | an event answers exactly with its value, not empty, standing at its span in its record |
| `MemoryRuns.ReachableInv` | examples/openai_server.c:2165-2389 | after any sequence of autonomous writes, honest structured events, imports and resets every event keeps byte-exact evidence, and in resident mode every event has its slot |
| `MemoryRuns.ReachableValues` | examples/openai_server.c:1603-1623 | after any such run every value is read back exactly unless its span is unknown |
| `MemoryRuns.EveryValueIsRead` | examples/openai_server.c:1603-1623 | without imports the evidence check never fails |
| `MemoryRuns.SnapshotRoundTrip` | examples/openai_server.c:1680-1732 | every reachable memory is exported, and importing the export into any session restores it |
| `MemoryRuns.RememberStores` | examples/openai_server.c:2197-2213 | a successful write found the event saying the text, or appended a current one citing it |
| `MemoryRuns.ResidentLogIsCollapse` | examples/openai_server.c:2197-2213 | in resident mode plain observations leave the input texts with only consecutive repeats collapsed, all current, one slot each |
| `MemoryRuns.ReturnIsKept` | examples/openai_server.c:2201-2204 | three observations A, B, A written to an empty resident memory leave exactly three current events |
| `MemoryRuns.PlainRepeatIsFree` | examples/openai_server.c:2197-2213 | outside resident mode a text some current event says changes nothing |
| `MemoryRuns.AutoNameIsFresh` | examples/openai_server.c:2285-2293 | invented identifiers never collide, so a resident write is refused only for its content or for lack of room |
| `MemoryRuns.DigitsDiffer` | examples/openai_server.c:2288-2290 | decimal forms of different counts differ |
| `MemoryRuns.NormalisedIsValid` | src/metis/event_store.c:70-84 | the store accepts a normalised predicate exactly when it has at most 64 bytes |
| `MemoryRuns.MisstatedValue` | examples/openai_server.c:1870-1880 | a structured event whose `value_text` differs from its `value` is stored and can never be read back |
| `MemoryRuns.PriorityStaysRaised` | examples/openai_server.c:2362-2371 | after one stored write, the same request with a higher priority fails and leaves the raised priority behind |
| `MemorySession.CompileDecoded` | examples/openai_server.c:2233-2284 | field by field with the anchor fallback, the predicted spans compile as specified |
| `MemorySession.FindUniqueSpan` | examples/openai_server.c:1845-1856 | two searches find the span exactly when the text occurs at one place only, overlapping occurrences counted, and it is that place |
| `MemorySession.ResolveSpans` | examples/openai_server.c:1870-1910 | given or searched spans are resolved as specified |
| `MemorySession.MemorySession.FindDuplicate` | examples/openai_server.c:2199-2212 | the loop finds the specified duplicate, in resident mode only the latest event |
| `MemorySession.MemorySession.DraftEvent` | examples/openai_server.c:2214-2361 | the event to be written, or the failure, as specified |
| `MemorySession.MemorySession.SaveEvent` | examples/openai_server.c:2362-2389 | three stores after the write, with the records cut back when the event is refused |
| `MemorySession.MemorySession.RememberText` | examples/openai_server.c:2165-2389 | the session after a write, and its status, as specified |
| `MemorySession.MemorySession.WriteEvent` | examples/openai_server.c:2728-2848 | the session after a structured event, and its status, as specified |
| `MemorySession.MemorySession.ImportSnapshot` | examples/openai_server.c:1680-1725 | the session after an import, and its status, as specified |
| `PrefixWire.EncodeRoundTrip` | python/native_prefix_bank.py:28-30 | a prefix file reads back to the batch it was written from |
| `PrefixWire.EncodeInjective` | python/audit_joint_baseline.py:20-25 | one file is the image of one batch only |
| `PrefixWire.WriteInput` | python/audit_joint_baseline.py:20-25 | the loop builds the specified bytes |
| `BatchedDecode.GreedyPrefix` | python/eval_joint_baseline.py:39-44 | further steps only extend a row and stop at its first stop token |
| `BatchedDecode.AdvanceAll` | python/eval_joint_baseline.py:70-73 | one batch step advances every running row by its own next token and leaves the others |
| `BatchedDecode.RunBatch` | python/eval_joint_baseline.py:59-86 | the shrinking batches give every row exactly its own greedy decode, cut at the first stop token or 64 tokens, and raise exactly when some running prefix is unusable |
| `BatchedDecode.Audit` | python/audit_joint_baseline.py:50-84 | the auditor's loops decide `Accepts` |
| `BatchedDecode.FileIsGenuine` | python/native_prefix_bank.py:23-54 | the files of the run bind their outputs to their inputs |
| `BatchedDecode.AuditMeans` | python/audit_joint_baseline.py:50-84 | given such files, the audit accepts exactly the rows' own greedy decodes with the batches rebuilt from them and prefixes of at most 128 tokens |
| `BatchedDecode.AuditGap` | python/audit_joint_baseline.py:71-78 | the audit passes the greedy report of a panel if and only if no prefix had more than 128 tokens, where the run demands at most 127 |
| `BatchedDecode.AuditAcceptsTooLong` | python/audit_joint_baseline.py:71-78 | a one-row panel that the run refuses and whose report the audit passes |
| `PanelReports.RowIff` | python/eval_joint_baseline.py:39-81 | the row of a prompt is the one that says: a greedy reply of at most 64 tokens up to its first stop token, the visible tokens, the concatenation of their pieces in order, whether that is complete text, why it ended, one call a token |
| `PanelReports.ReportSays` | python/eval_joint_baseline.py:59-86 | a report says this of every prompt, and each step lists exactly the rows still running, with the file of their prefixes and their next tokens |
| `PanelReports.AcceptedSays` | python/audit_joint_baseline.py:50-84 | so does every report that the audit of genuine files accepts, with prefixes of at most 128 tokens |
| `UnicodeText.TextRoundTrip` | python/export_bnmodel.py:23-26 | UTF-8 encoded text decodes to itself |
| `UnicodeText.ValidIffEncoded` | python/export_bnmodel.py:61-78 | bytes decode exactly when they are the encoding of a text, and to that text |
| `IndexLines.LineRead` | python/export_bnmodel.py:23-26 | a written index line parses to its entry |
| `IndexLines.IndexRoundTrip` | python/export_bnmodel.py:61-78 | an index reads back exactly when no name holds U+0085, U+2028 or U+2029; otherwise it cannot be read at all |
| `IndexLines.NextLineTearsIndex` | python/export_bnmodel.py:61-78 | a name with U+0085 makes the index unreadable, a name with a line feed does not |
| `Container.OpenPacked` | python/export_bnmodel.py:52-70 | a packed file opens to version, entries and payload, or not at all when a name breaks a line |
| `Container.WriteThenRead` | python/export_bnmodel.py:36-78 | a written file gives back every name, shape and payload slice exactly when no name breaks a line |
| `Container.AppendedFile` | python/export_bnmodel.py:95-124 | appending keeps base entries, offsets and bytes, places new tensors disjointly behind them, and leaves a file that passes its own size check |
| `Container.AppendThenRead` | python/export_bnmodel.py:81-125 | an append that writes a file returns an index if and only if the base names are plain and distinct and the new ones plain; the index then lists every base tensor at its old offset and recovers every new one, and the file can be appended to again |
| `Container.DoubledNameIsNotRead` | python/export_bnmodel.py:61-125 | a base with a doubled name is appended to, and then the closing read fails |
| `Container.ReplaceAllUpdates` | python/export_bnmodel.py:152-162 | named tensors are replaced in place, others kept, new names added last |
| `Container.ReplacedFile` | python/export_bnmodel.py:128-179 | the replaced file holds exactly those tensors, packed without gaps |
| `Container.SliceIsComplete` | python/export_bnmodel.py:145-150 | a base tensor is copied whole exactly when it lies inside the payload |
| `Container.ReplaceThenRead` | python/export_bnmodel.py:128-179 | a replacement that writes a file returns an index if and only if the base names are plain and distinct and the new ones plain; the index then recovers every kept and every new tensor |
| `Container.ReplacementCanCutShort` | python/export_bnmodel.py:145-179 | a tensor reaching beyond the payload is copied with its shape and too few bytes, and the result can no longer be appended to |
| `Container.PackIff` | python/export_bnmodel.py:52-58 | a file is packed exactly when version, number of entries and index size have 32 bits, into a 16-byte header, the index, a line feed and the payload |
| `Container.WriteIff` | python/export_bnmodel.py:36-58 | writing succeeds exactly for versions 2 and 3 within those bounds |
| `Container.AppendIff` | python/export_bnmodel.py:81-124 | an append writes a file exactly when the base loads, has none of the new names, ends where its payload does, and the longer file can be packed |
| `Container.ReplaceIff` | python/export_bnmodel.py:128-179 | a replacement writes a file exactly when the base loads and the new file can be packed |
| `Container.LoadIff` | python/export_bnmodel.py:83-95 | a file loads exactly when magic, header numbers, encoded index lines and rest read as these parts |
| `Container.ReadTableIff` | python/export_bnmodel.py:61-78 | the index of a file is returned exactly when it has as many different names as the header says |
| `Container.Place` | python/export_bnmodel.py:42-49 | the cursor gives every tensor its offset |
| `Container.WriteModel` | python/export_bnmodel.py:36-58 | the writer computes the specified file |
| `Container.BaseEnd` | python/export_bnmodel.py:99-106 | the end of the last tensor of an index |
| `Container.AppendTensors` | python/export_bnmodel.py:81-125 | the appending writer leaves the specified file and returns what reading it back gives, or the specified failure |
| `Container.ReplaceTensors` | python/export_bnmodel.py:128-179 | the replacing writer leaves the specified file and returns what reading it back gives, or the specified failure |
| `Alignment.AlignSource` | python/check_joint_span_interface.py:28-37 | the loop computes the specified ranges |
| `Alignment.FramedNeedsNoEscape` | python/check_joint_span_interface.py:31-33 | a message is supported only if JSON writes each of its characters as itself |
| `Alignment.RangeIsPiece` | python/check_joint_span_interface.py:34-37 | an allowed piece inside the message has a range whose slice of the message is that piece |
| `Alignment.UniqueInFrame` | python/diagnose_role_content_path.py:30-33 | a value that the frame holds once, overlaps aside, is found there at its place in the message: no occurrence reaches across the opening quote |
| `Alignment.FindTokenSpan` | python/diagnose_role_content_path.py:28-38 | the loop computes the specified positions |
| `Alignment.TokenSpanMeans` | python/diagnose_role_content_path.py:32-38 | the token span is one unbroken stretch: exactly the tokens overlapping the value, covering it |
| `Alignment.ExactSpanIsTokenSpan` | python/check_joint_span_interface.py:28-48 | for ranges built from a framed message with non-empty pieces, the pieces of an exact span spell the value, and whenever the token span of the value in the frame exists it is that same interval |
| `Alignment.ExactSpanIff` | python/check_joint_span_interface.py:40-48 | an exact span exists exactly when the value stands once in the text and one single piece begins, and one single piece ends, where it does |
| `Alignment.FirstDivergence` | python/diagnose_role_content_path.py:55-58 | first index at which the replies differ, none exactly when one begins with the other |
| `DialogueSpans.FindTurn` | python/compile_dialogue_teacher.py:20-43 | the loops compute the specified turn bounds |
| `DialogueSpans.CollectTurns` | python/compile_dialogue_teacher.py:64-78 | all colons of turns spoken by the subject, in order |
| `DialogueSpans.SpeakerIff` | python/compile_dialogue_teacher.py:20-43 | a speaker colon stands right behind a name of 1 to 24 bytes without a space that follows a space |
| `DialogueSpans.SpokenIff` | python/compile_dialogue_teacher.py:64-78 | a turn is the subject's exactly when the name before its colon is the subject, at the beginning or behind a space |
| `DialogueSpans.TurnMeans` | python/compile_dialogue_teacher.py:20-43 | a turn begins after the blanks behind its colon, holds no speaker colon, and ends before the name of the next speaker or with the text |
| `DialogueSpans.Annotate` | python/compile_dialogue_teacher.py:80-95 | the search loop computes the specified targets |
| `DialogueSpans.DialogueMeans` | python/compile_dialogue_teacher.py:53-95 | the annotation succeeds exactly when one fact matches and its value occurs, overlaps counted, at exactly one place inside the subject's turns, and names that place and such a turn |

## Left out

- Digests, identity and type checks: the controller's binding checks, tensor versions and snapshot digests are the one flag `sound` of a frame; container, corpus and backbone hashes are not modelled.
- Neural scoring: the reader's prediction, the typed writer's spans and operation, predecessor selection and resident encoding are inputs of each call, free to be anything.
- A failed `bitnet_eval` during decoding and failed allocations: capacity is the only reason for an evaluation to fail. The history would be one token ahead of the context after such a failure.
- The tokenizer's own merging rules: it is any function whose pieces pass the checks in the code.
- Counters kept twice (session and generation record): the session's history count is the generation's; the transcript and the growable reply text are byte sequences in `SessionServer`, and `ByteBuffer` is the in-place buffer behind them.
- HTTP, JSON construction, streaming of events, wall-clock fields, argument parsing and session lookup by name.
- Repetition penalty arithmetic: sampling is a function of the context and the recent window.
- The resident address memory: a slot is an opaque value; what reading it selects is not modelled, nor is the newline-joined answer over several selected events.
- Priorities are real numbers; a NaN priority, which the store refuses, has no counterpart. Keys of episodic records are not modelled.
- Snapshot file bytes: record checksums, magic numbers and the manifest are not modelled; the mapping of offsets to 32 bits, the replay on loading and the evidence check are.
- The heuristics that turn a sentence into a memory action: the hint of a write is an input.
- Polarity, kind and operation names of a structured request: parsed values are inputs, their parsing errors are not modelled.
- Float conversion in the container: a tensor is its shape and its little-endian bytes; JSON spellings other than the writer's own are read as errors; 32-bit overflow of a header field is an error, as in the code, and what such a failed write leaves at the path is not modelled.
- The reply text field of a batch report that replaces invalid bytes, and the step logs of the native process: the raw bytes, their validity and the arg-max of each row are modelled.
- Number of panel rows: any number up to 10000 instead of 24.
- `DialogueSpans`: no claim that a turn starts between two characters, because the start is one byte after a colon that may have three.
- The C kernels, quantisation formats, training scripts and float tolerance checks.
