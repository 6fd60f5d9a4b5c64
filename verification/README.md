# Agentic debugger: verified model of the protocol adapters

A Dafny model of the parts of the agentic debugger where its own loops and branches carry a hard promise, with
proofs of those promises for every input, run or schedule. `dafny verify dfyconfig.toml` checks the whole project.

- **Stream evidence of the Ollama adapter** (`Utf8`, `ContentEvidence`, `ContentStream`, `ProviderStream`). The streaming
  loop with its counters, indices and bounded diagnostics, from the received bytes on, and the two validators that
  re-check them. Fragments are cut by a back-off loop over UTF-8 bytes. The internal consistency errors can never be
  raised. Seen from the provider, a printed stream comes back as the members of its frames.
- **The one directive in free text** (`Json`, `JsonText`, `JsonRoundTrip`, `JsonNumbers`, `JsonGrammar`, `CanonicalJson`,
  `Text`, `JsonScan`, `PublicRequest`, `DirectiveExtraction`). A JSON decoder and printer over characters, written as
  suffix reader and continuation writer; the grammar of RFC 8259 with every choice a writer has, and that the decoder
  reads exactly its texts; the greedy scan for objects; the request between its delimiters and back.
- **Prompt, schema and validator** (`DirectiveValidator`, `DirectiveMeaning`, `DirectiveSchema`, `ObservationLookup`,
  `ObservationOrder`, `LookupMeaning`, `PromptGuidance`, `GuidanceMeaning`, `CopiedGuidance`). The three copies of the
  directive validator are one function with the shape of `directive_schema` as a parameter. What the generated JSON
  Schema says, what the guidance shows and what the validator accepts are compared with each other, in both directions,
  up to the directive that is extracted when the output copies one from the guidance.
- **Event logs and streams as state machines** (`EventReplay`, `ActionReplay`, `RepeatedActions`, `ReplayMeaning`,
  `EventLog`, `AgyStream`, `AgyMeaning`, `ControllerRuns`). The repeated scans over an event log against one-pass
  machines, one of them exact on every log; the log and the AGY streams from their text on; and all runs of the
  controller graph.
- **Concurrency** (`Cancellation`). Any number of `request` and `check` calls, interleaved access by access, with the
  event set outside the lock; and the token as an object whose methods have the effect of an uninterrupted call.
- **Smaller kernels** (`CapsuleClearing`, `CapsuleTree`, `TrajectoryText`, `Captures`, `BaselineVerdict`, `Newlines`).
  Path deletion in place on a mutable tree and as a function, the rewritten trajectory and what its validator reads back,
  pipe captures over every chunking, the body of a response, campaign selection and verdict, newline rewriting.

Loops of the source are methods proved equal to a specification function or to the promised property; the theorems are
lemmas about those functions. Objects that the source mutates are classes. Exceptions are results. What decides about a
JSON value is also told without those functions, by the members of the value alone (`Json.At`): the modules named
`...Meaning`, `ProviderStream` and parts of `PromptGuidance` say which events, frames, lines, candidates and requests
are meant, member name by member name.

Where the code does not keep what its documentation or a natural reading promises, the model follows the code, gives an
input that shows it, and proves exactly when the promise holds:

- `CancellationToken.check` documents that an explicit request always wins over the deadline. It does only when it is
  inside the lock first (`Cancellation.DeadlineCanWin`, against `Cancellation.FirstInLockDecides` and, for a caller,
  `Cancellation.ReturnedRequestBeatsDeadline` and `Cancellation.DeadlineStillCanWin`).
- `verdict_discrepancy` documents that it describes exactly how the lists differ. It cannot show a different order,
  which makes the exit code 1 (`BaselineVerdict.OrderIsNotReported`, against `BaselineVerdict.ReportedExit`).
- A request in which the END delimiter occurs is recovered as an empty object (`PublicRequest.DelimiterRequestLost`,
  against `PublicRequest.RecoverBuilt`).
- A rewritten trajectory event that holds U+0085, U+2028 or U+2029 is written unescaped and split by the validator that
  reads it back (`TrajectoryText.SplitEventFails`, against `TrajectoryText.EventIsOneLine` and
  `TrajectoryText.TrajectoryReadsBack`).
- An action can be accepted although the schema generated for the same request has no variant for it, exactly when
  `allowed_actions` is not a list (`DirectiveSchema.UnlistedActionBeyondSchema`, against
  `DirectiveSchema.AcceptedSatisfiesSchema`).
- `list.index` finds the first equal event, so a repeated action misleads the replay of an event log
  (`EventReplay.RepeatedActionMatters`). `ActionReplay.ReplayIsReport` and `EventReplay.ReportedMeaning` say exactly what
  is reported on every log; `EventReplay.ReplayIsRun` and `EventReplay.AppliedMeaning` say that it is the plain meaning
  when the last apply and the reverts after it repeat nothing, and `RepeatedActions.FreshIff` that for the last apply
  this is necessary.
- The de-duplicated observation lookup differs from the plain one when an id comes back after another
  (`ObservationOrder.OrderMatters`). For a sequence of ids they agree on all payloads exactly when the ids come in the
  same order by first occurrence as by last (`ObservationOrder.OrderDecides`).

## Model

| member | source | states |
|---|---|---|
| Utf8.DecodeEncoded | scripts/ollama_cloud_command_adapter.py:918-931 | strict UTF-8 decoding undoes encoding for every text |
| Utf8.EncodeDecoded | scripts/ollama_cloud_command_adapter.py:918-931 | whatever the strict decoder accepts is the encoding of what it returns: overlong forms, surrogates and values past U+10FFFF are refused (sections 3 and 4 of RFC 3629) |
| Utf8.DecodeCut | scripts/ollama_cloud_command_adapter.py:923-929 | encoded text cut at any byte decodes exactly when the cut is a character boundary, and then to the characters before it |
| Utf8.FittingLongest | scripts/ollama_cloud_command_adapter.py:918-931 | the kept prefix is the longest run of whole characters within the byte limit |
| Utf8.FittingWaste | scripts/ollama_cloud_command_adapter.py:918-931 | fewer than four bytes of the limit stay unused once something had to be cut |
| ContentEvidence.BoundedContentFragment | scripts/ollama_cloud_command_adapter.py:910-944 | the back-off loop drops at most three bytes and yields the fragment whose text is the whole content or its longest whole-character prefix plus three dots |
| ContentEvidence.TruncatedFragment | scripts/ollama_cloud_command_adapter.py:918-931 | a truncated fragment is 4093 to 4096 bytes long, and one more character would have passed 4093 |
| ContentEvidence.DiagnosticConsistent | scripts/ollama_cloud_command_adapter.py:947-989 | the diagnostic built for a frame passes the consistency check against the content it was built from, for every content |
| ContentEvidence.ContentFrameDiagnostic | scripts/ollama_cloud_command_adapter.py:1022-1047 | building a diagnostic and checking it returns it and never reports an inconsistency |
| ContentEvidence.CheckAggregate | scripts/ollama_cloud_command_adapter.py:992-1019 | an inconsistency is reported exactly when nothing was cut or redacted and the fragments do not join to the final content |
| ContentStream.StreamChat | scripts/ollama_cloud_command_adapter.py:1129-1214 | on every sequence of byte lines the loop returns the evidence about the accepted frames or the first error, and never an observability error about its own evidence |
| ContentStream.PrintedLine | scripts/ollama_cloud_command_adapter.py:1144-1152 | a JSON object printed on a line of its own and encoded in UTF-8 is received as that object, whatever style it was printed in |
| ContentStream.ReadStream | scripts/ollama_cloud_command_adapter.py:1129-1214 | the loop over the received bytes with all its counters equals the recursive description of the accepted frames, for every frame parser |
| ContentStream.Record | scripts/ollama_cloud_command_adapter.py:1170-1193 | one accepted frame updates counters, first and last index, and the diagnostics kept up to 128 |
| ContentStream.Finish | scripts/ollama_cloud_command_adapter.py:1202-1214 | the checks after the loop accept exactly the non-blank contents, and the aggregate check never fires |
| ContentStream.AcceptedFrames | scripts/ollama_cloud_command_adapter.py:1129-1203 | an accepted stream ends at its first done frame, which gives a reason, and its content stays within the byte bound |
| ContentStream.ExactDiagnosticsReconstruct | scripts/ollama_cloud_command_adapter.py:992-1019 | when every diagnostic is exact, joining their texts gives the whole content |
| ContentStream.ContentFrameBounds | scripts/ollama_cloud_command_adapter.py:1176-1180 | first and last content index are the first and last frame with content, and exist when there is content |
| ContentStream.DiagnosticsAre | scripts/ollama_cloud_command_adapter.py:1181-1193 | the diagnostics describe exactly the noteworthy frames, one each, in frame order |
| ContentStream.NoObservabilityError | scripts/ollama_cloud_command_adapter.py:1129-1214 | no line sequence has an observability error as its outcome |
| ProviderStream.FrameChecked | scripts/ollama_cloud_command_adapter.py:1153-1169 | which error a decoded frame meets, told by its members: object, model, done, role, tool_calls and text fields, in that order |
| ProviderStream.FrameIs | scripts/ollama_cloud_command_adapter.py:1153-1221 | an accepted frame counts its thinking member as thinking, returns its content member as content, and gives its own token counts |
| ProviderStream.StreamDelivered | scripts/ollama_cloud_command_adapter.py:1129-1221 | round trip from the provider: frames printed one a line, done only on the last, come back as the content members joined in order, the size of the thinking members and the usage of the last frame |
| ProviderStream.StreamBroken | scripts/ollama_cloud_command_adapter.py:1129-1200 | a stream that breaks off behind any number of well-formed frames ends in the error of what comes next: silence, a failed read, the end, a line over the bound, a line that is no JSON, or a frame that fails a check |
| ProviderStream.BlankLineSkipped | scripts/ollama_cloud_command_adapter.py:1150-1151 | a line of white space changes nothing |
| JsonRoundTrip.ReadWritten | scripts/opencode_protocol_transport.py:1225-1251 | reading a printed value, floats included, gives the value back and leaves exactly the text that follows it |
| JsonRoundTrip.ReadMore | scripts/opencode_protocol_transport.py:1240-1247 | a decoded value is decoded the same way whatever text comes after it |
| JsonRoundTrip.ReadWellFormed | scripts/opencode_protocol_transport.py:1240-1247 | a decoded object has each key once, at every level |
| JsonRoundTrip.ProperPrefixUnreadable | scripts/opencode_go_synthetic_executable.py:325-342 | no proper prefix of a printed object or array is valid JSON |
| JsonNumbers.ReadLoaded | scripts/opencode_protocol_transport.py:1240-1247 | every float that is decoded is kept by a text that can be printed again, or is one of the words NaN, Infinity and -Infinity |
| JsonNumbers.StrictIsFinite | scripts/build_r6_frozen_evidence_capsule.py:207 | of a decoded value what holds none of those words, and only that, can be printed and read back; that json.dumps also refuses a literal such as 1e999, which overflows to infinity, is not modelled |
| JsonGrammar.SyntaxRead | scripts/opencode_protocol_transport.py:1240-1247 | every text of the JSON grammar (RFC 8259), with any white space around its structural characters, any escapes, digits in either case and repeated keys, is read as the value it stands for |
| JsonGrammar.SyntaxParsed | scripts/opencode_protocol_transport.py:1240-1247 | conversely whatever is read is a text of that grammar with that value |
| JsonGrammar.ReadExactly | scripts/opencode_protocol_transport.py:1240-1247 | so what decodes at the start of a text is exactly what the grammar has there |
| JsonGrammar.LoadsExactly | scripts/opencode_go_synthetic_executable.py:325-342 | json.loads accepts exactly the documents of the grammar, each with its meaning |
| JsonGrammar.WrittenObjectFound | scripts/opencode_protocol_transport.py:1225-1251 | an object written in any way the grammar allows, between prose without braces, is the one object the scan finds |
| CanonicalJson.CanonicalUnique | scripts/opencode_protocol_transport.py:852-861 | two requests with the same dictionary content have the same canonical form, whatever order they were filled in |
| CanonicalJson.CanonicalSame | scripts/opencode_protocol_transport.py:852-861 | sorting the keys changes nothing but their order and keeps the value printable |
| CanonicalJson.LoadsDumps | scripts/opencode_protocol_transport.py:852-861 | loading the canonical text gives the same value with sorted keys |
| JsonScan.JsonObjects | scripts/opencode_protocol_transport.py:1225-1251 | the scanning loop returns the objects of the text with its control sequences removed; it ends because the text left gets shorter |
| JsonScan.GreedyExists | scripts/opencode_protocol_transport.py:1225-1251 | every text has a greedy decomposition: increasing disjoint spans that decode, and no opening brace outside them does |
| JsonScan.GreedyUnique | scripts/opencode_protocol_transport.py:1225-1251 | there is only one greedy decomposition |
| JsonScan.ObjectsAreGreedy | scripts/opencode_protocol_transport.py:1225-1251 | the scan returns the values of the greedy decomposition |
| JsonScan.ScanPieces | scripts/opencode_protocol_transport.py:1225-1251 | scanning any mix of brace-free prose and object texts finds exactly the objects, in order |
| JsonScan.PrintedPiece | scripts/opencode_protocol_transport.py:1225-1251 | the printed text of an object is such an object text: no control sequence, read back whole |
| JsonScan.WriteShows | scripts/opencode_protocol_transport.py:852-861 | printed text holds no control character, and under ensure_ascii nothing but printable ASCII |
| JsonScan.ReadSuffix | scripts/opencode_protocol_transport.py:1240-1247 | what is left after decoding is the end of the text it was decoded from, so the returned offset is a position in it |
| JsonScan.StripAnsiFree | scripts/opencode_protocol_transport.py:1038-1039 | text without an escape character is left as it is |
| JsonScan.SequenceStripped | scripts/opencode_protocol_transport.py:1038-1039 | a control sequence with any parameters, intermediates and final character disappears from between two texts |
| JsonScan.StripAnsiKeeps | scripts/opencode_protocol_transport.py:1038-1039 | a character with which no such sequence begins stays |
| JsonScan.StripAnsiMore | scripts/agy_gemini_command_adapter.py:330-331 | no control sequence reaches over a newline: complete lines are stripped the same whatever follows |
| JsonScan.StripAnsiNotIdempotent | scripts/opencode_protocol_transport.py:1038-1039 | one pass can leave a control sequence that its own removals brought together |
| PublicRequest.BetweenEmbedded | scripts/opencode_go_synthetic_executable.py:325-342 | what lies between the delimiters of a built message is the whole text, or the text up to an END of its own |
| PublicRequest.RecoverBuilt | scripts/opencode_protocol_transport.py:864-898 | recovery returns the request that was sent exactly when END does not occur in its canonical text, and an empty object otherwise |
| PublicRequest.DelimiterRequestLost | scripts/opencode_protocol_transport.py:864-898 | a request whose text holds END is recovered as an empty object |
| DirectiveValidator.CheckEvidenceRefs | scripts/opencode_protocol_transport.py:427-435 | the loop with its set of references seen accepts exactly the lists of plain texts without a repetition |
| DirectiveMeaning.AcceptedByMembers | scripts/opencode_protocol_transport.py:290-451 | a candidate is accepted exactly when it is an object of an offered kind whose members are known and, kind by kind, good, told by member names with every limit written out |
| DirectiveMeaning.ArgumentsFit | scripts/opencode_protocol_transport.py:304-351 | action arguments are accepted exactly when every required one is there, no undeclared one where the contract forbids it, and each has the declared type, an allowed value and the least length |
| DirectiveExtraction.ExtractValid | scripts/opencode_protocol_transport.py:476-503 | the candidate loop returns the one accepted candidate, or the error for none, several, or a raising one |
| DirectiveExtraction.ExtractDirective | scripts/opencode_protocol_transport.py:454-503 | the transport extracts by the request schema, or by the single object when the request has none |
| DirectiveExtraction.ExtractDirectiveGo | scripts/opencode_go_command_adapter.py:660-674 | the Go adapter extracts by its own schema shape |
| DirectiveExtraction.OnlyOne | scripts/opencode_protocol_transport.py:243-272 | without a schema the directive is the one object there is; none and several are told apart |
| DirectiveExtraction.ExtractIff | scripts/opencode_protocol_transport.py:476-503 | a directive is returned exactly when no object raises and it is the only object, counted with repetitions, that validates |
| DirectiveExtraction.ExtractFromPieces | scripts/opencode_protocol_transport.py:454-503 | a whole text made of prose and objects yields a directive exactly when validation raises on none of its objects and it is the only one, counted with repetitions, that validates |
| DirectiveExtraction.OnlyValidObjectsMatter | scripts/opencode_protocol_transport.py:460-503 | adding, removing or moving objects that do not validate never changes which directive is accepted, as long as validation raises on some object in both texts or in neither |
| DirectiveExtraction.SchemaKeyRejected | scripts/opencode_protocol_transport.py:367-377 | an object with a member directive_schema is rejected as a directive, and validation does not raise on it |
| DirectiveExtraction.CopiedRequestRejected | scripts/opencode_protocol_transport.py:367-377 | so a request copied into the output is never taken for a directive, for either shape of its schema |
| DirectiveExtraction.ValidCounts | scripts/opencode_protocol_transport.py:483-486 | the candidates kept are the accepted ones, each as often as it occurs |
| DirectiveExtraction.NeverRaises | scripts/opencode_protocol_transport.py:304-451 | the validator raises on no candidate when the types and required names in the action contracts are hashable |
| DirectiveSchema.BuildDirectiveJsonSchema | scripts/agy_gemini_command_adapter.py:675-752 | the appended variants are those of the offered kinds in order; none is an error, one stands alone, several become a oneOf |
| DirectiveSchema.AcceptedSatisfiesSchema | scripts/agy_gemini_command_adapter.py:576-662 | an accepted directive satisfies the generated schema, except exactly an action accepted while allowed_actions is not a list |
| DirectiveSchema.UnlistedActionBeyondSchema | scripts/agy_gemini_command_adapter.py:576-752 | a request without an allowed_actions list together with an action that is accepted and does not satisfy the schema |
| DirectiveSchema.SchemaSatisfyingVerdict | scripts/agy_gemini_command_adapter.py:675-752 | conversely a directive that satisfies the schema can be refused only for what the schema does not express |
| DirectiveSchema.SchemaByKind | scripts/agy_gemini_command_adapter.py:748-752 | oneOf is never ambiguous: a directive satisfies the schema exactly when it satisfies the variant of its own kind |
| DirectiveSchema.ClosedMeaning | scripts/agy_gemini_command_adapter.py:688-697 | a closed object schema asks for the declared members, each as declared, and no others |
| DirectiveSchema.ActionMeaning | scripts/agy_gemini_command_adapter.py:685-697 | what the action variant demands of a directive |
| DirectiveSchema.TransitionMeaning | scripts/agy_gemini_command_adapter.py:698-708 | what the transition variant demands of a directive |
| DirectiveSchema.HypothesisMeaning | scripts/agy_gemini_command_adapter.py:709-736 | what a hypothesis variant demands of a directive |
| DirectiveSchema.StatusMeaning | scripts/agy_gemini_command_adapter.py:737-747 | what the status variant demands of a directive |
| DirectiveSchema.VariantsAre | scripts/agy_gemini_command_adapter.py:684-747 | the variants have different kinds, each is the one of its kind, and none of an offered kind is missing |
| ObservationLookup.PublicObservations | scripts/protocol_prompt_shaper.py:308-331 | the loop keeps each id once: at the place of its first occurrence with the value of its last |
| ObservationLookup.StoreLines | scripts/protocol_prompt_shaper.py:367-376 | the loop over the source lines of one observation |
| ObservationLookup.CollectLoop | scripts/protocol_prompt_shaper.py:356-376 | the loop over the observations collects the last breakpoint and the source text by place |
| ObservationLookup.Answer | scripts/protocol_prompt_shaper.py:377-384 | a source line is quoted exactly when one file alone has a text for the breakpoint line |
| ObservationLookup.BreakpointSourceFrozen | scripts/protocol_prompt_shaper.py:345-384 | the lookup over all observations |
| ObservationLookup.BreakpointSourceInteractive | scripts/protocol_prompt_shaper.py:387-416 | the lookup over the observations without duplicates |
| ObservationLookup.StoredAt | scripts/protocol_prompt_shaper.py:367-376 | behind the loop over source lines a place holds the last text stored there, or what it held before |
| LookupMeaning.AnswerMeans | scripts/protocol_prompt_shaper.py:345-384 | a source line is quoted exactly when its number is the breakpoint proved last, no other file gives a line of that number and its text is the one given last, told by the members of the observations |
| LookupMeaning.CandidatesMean | scripts/protocol_prompt_shaper.py:308-331 | the observations of a request are those its history carries, in order, and then the one of its controller |
| ObservationOrder.OrderDecides | scripts/protocol_prompt_shaper.py:308-416 | over every sequence of ids the two lookups agree for all payloads exactly when the ids come in the same order by first occurrence as by last occurrence |
| ObservationOrder.UniqueCollectsTheSame | scripts/protocol_prompt_shaper.py:308-376 | when ids are texts that stand for one observation each and come in the same order either way, removing duplicates changes nothing the lookup collects |
| ObservationOrder.LookupsAgree | scripts/protocol_prompt_shaper.py:345-416 | then both prompts quote the same source line |
| ObservationOrder.SampleDiffers | scripts/protocol_prompt_shaper.py:308-416 | whenever two ids stand in one order by first occurrence and in the other by last, there are payloads for which the frozen lookup quotes one line and the interactive lookup another |
| ObservationOrder.OrderMatters | scripts/protocol_prompt_shaper.py:308-416 | a request with the history a, b and the controller observation a, for which the frozen prompt quotes line 1 and the interactive prompt line 2 |
| PromptGuidance.SpecTeachesIff | scripts/protocol_prompt_shaper.py:221-247 | the validator accepts the value shown for a property exactly when its specification fits that value, read off the specification alone |
| PromptGuidance.ContractTeachesIff | scripts/protocol_prompt_shaper.py:539-557 | the validator accepts the arguments shown for an action exactly when its contract fits its own example |
| PromptGuidance.TypedValueFits | scripts/protocol_prompt_shaper.py:221-247 | the value made up for a type has that type, and is long enough exactly when the placeholder is |
| PromptGuidance.ShownActionAccepted | scripts/protocol_prompt_shaper.py:756-766 | a concrete action shown is accepted exactly when its contract fits the example and the example is strict JSON within the byte bound, for either shape of the directive schema |
| PromptGuidance.ShownHypothesisAccepted | scripts/protocol_prompt_shaper.py:709-751 | a hypothesis shown is accepted exactly when what the request gives for its fields, by example or only allowed value, is legal there, for either shape |
| PromptGuidance.ShownHypothesisHolds | scripts/protocol_prompt_shaper.py:709-751 | each field of a hypothesis shown is the example the request gives for it, else the only value of its enum, else the default; runtime evidence is asked for exactly when true is the only value allowed |
| PromptGuidance.ShownWithinEnum | scripts/protocol_prompt_shaper.py:732-739 | the value shown is in the enum of its field exactly when the example is, or else the enum has one value or holds the default |
| PromptGuidance.ShownActionHolds | scripts/protocol_prompt_shaper.py:221-247 | an action shown has an argument for every required field and no other, each the example, the first allowed value or the value made up for its type |
| PromptGuidance.ShownTransitionAccepted | scripts/protocol_prompt_shaper.py:780-795 | the transition shown for a sole legal target is always accepted, for either shape |
| PromptGuidance.DefaultsLegal | scripts/protocol_prompt_shaper.py:740-747 | without constraints the values shown for a hypothesis are legal |
| PromptGuidance.GuidanceShowsAccepted | scripts/protocol_prompt_shaper.py:687-803 | every concrete directive in the guidance is accepted by the validator of the shape of the request exactly when the request fits its own examples |
| PromptGuidance.KindOffered | scripts/protocol_prompt_shaper.py:211-218 | the guidance and the validator take the same kinds as offered, from an object and from a list |
| CopiedGuidance.GuidanceFollowed | scripts/protocol_prompt_shaper.py:687-803 | end to end: every directive in the guidance, copied verbatim between any brace-free prose, is the directive extracted, exactly when the request fits its own examples |
| CopiedGuidance.OneObject | scripts/opencode_protocol_transport.py:460-503 | one printed object between brace-free prose is extracted exactly when it is accepted |
| CopiedGuidance.CopiedRequestHarmless | scripts/opencode_protocol_transport.py:460-503 | with a copy of the whole request in front of it the directive is still extracted exactly when it is accepted |
| PromptGuidance.AppendActions | scripts/protocol_prompt_shaper.py:756-779 | the loop over the allowed actions appends in order the lines of every name shown and reports whether diagnosis was among them; only non-texts and the empty name are passed over, a name without a contract is shown with empty arguments |
| PromptGuidance.BuildRequestGuidance | scripts/protocol_prompt_shaper.py:687-939 | both builders append the described lines, with the observations of their profile |
| PromptGuidance.InteractiveExtendsFrozen | scripts/protocol_prompt_shaper.py:806-939 | when the ids of the observations come in the same order either way, the interactive guidance is the frozen one with the diagnosis lines inserted at one place, and equal to it when diagnosis is not offered |
| GuidanceMeaning.LinesBelong | scripts/protocol_prompt_shaper.py:687-803 | which lines the guidance holds, read off the members of the request: the actions, hypotheses and transition shown and every note about them |
| GuidanceMeaning.DiagnosisLinesBelong | scripts/protocol_prompt_shaper.py:806-939 | the interactive guidance adds the diagnosis lines exactly for an advertised diagnosis of which an example can be made |
| EventReplay.AppliedPatch | scripts/quixbugs_opencode_go_adapter.py:1901-1990 | the scans of the event list compute the replay outcome |
| EventReplay.SearchObservation | scripts/quixbugs_opencode_go_adapter.py:1943-1953 | the search stops at the first observation for the action and name |
| EventReplay.RevertLoop | scripts/quixbugs_opencode_go_adapter.py:1970-1989 | the loop stops at the first later revert that has an effect |
| EventReplay.ReplayIsRun | scripts/quixbugs_opencode_go_adapter.py:1901-1990 | when the last apply and the reverts after it equal no event before them, malformed payloads included, the repeated scans equal a machine that keeps only the last apply |
| EventReplay.AppliedMeaning | scripts/quixbugs_opencode_go_adapter.py:1901-1990 | on such a log a patch is reported exactly when it is the one of the last apply, its first observation confirms it with its hash, and no later revert came to anything |
| EventReplay.ReportedMeaning | scripts/quixbugs_opencode_go_adapter.py:1901-1990 | on every log whatever, a patch is reported exactly when it is the one of the last apply, the first observation behind the first event equal to that apply confirms it with its hash, and no revert from there on came to anything |
| EventReplay.RevertedStays | scripts/quixbugs_opencode_go_adapter.py:1970-1990 | once a revert took effect, only a new apply brings a result back |
| EventReplay.KnownStep | scripts/quixbugs_opencode_go_adapter.py:1943-1989 | what every step of the machine keeps: its confirmation and the state of every revert are what the searches over the events so far would find |
| EventReplay.RunConcat | scripts/quixbugs_opencode_go_adapter.py:1901-1990 | running a log in two parts is running it whole |
| EventReplay.RunFrom | scripts/quixbugs_opencode_go_adapter.py:1936-1943 | everything before the last apply is forgotten |
| EventReplay.RepeatedActionMatters | scripts/quixbugs_opencode_go_adapter.py:1943-1953 | a log with one apply event logged twice, for which list.index makes the scans report a patch that was not confirmed |
| ReplayMeaning.ReplayByMembers | scripts/quixbugs_opencode_go_adapter.py:1901-1990 | on every log, told by event members alone: a patch is reported exactly when it is the one of the last apply, the first observation for it says applied with its hash, and the first observation of no revert from there on says reverted or cannot be asked |
| ReplayMeaning.ConfirmedRevertEnds | scripts/quixbugs_opencode_go_adapter.py:1970-1990 | a revert behind the last apply whose first observation says reverted leaves no patch |
| ReplayMeaning.ReadableNeverRaises | scripts/quixbugs_opencode_go_adapter.py:1901-1990 | where every payload can be asked the replay does not raise |
| RepeatedActions.RepetitionMatters | scripts/quixbugs_opencode_go_adapter.py:1943-1953 | whenever the last apply equals an earlier event, an observation inserted behind the first of them makes the scans report something else than the plain meaning |
| RepeatedActions.FreshIff | scripts/quixbugs_opencode_go_adapter.py:1901-1990 | with fresh reverts behind it, observations before the last apply never make a difference exactly when it equals no earlier event |
| ActionReplay.ReplayIsReport | scripts/quixbugs_opencode_go_adapter.py:1901-1990 | on every log whatever, the repeated scans equal a one-pass machine that keeps the search begun at each action and reports on the first action equal to the last apply |
| ActionReplay.RunIs | scripts/quixbugs_opencode_go_adapter.py:1943-1989 | after every log that machine holds, for each apply and revert in order, what a search begun there would have found |
| ActionReplay.EqualActions | scripts/quixbugs_opencode_go_adapter.py:1924-1989 | two events that Python compares equal are the same action: same patch, same action id, and both or neither with a usable payload |
| ActionReplay.RunOnConcat | scripts/quixbugs_opencode_go_adapter.py:1901-1990 | the machine can be fed a log in parts |
| EventLog.ReadEvents | scripts/quixbugs_opencode_go_adapter.py:1888-1898 | the loop over the lines of the log yields the events in order and passes over blank lines, lines that do not decode and values that are no dictionary |
| EventLog.AppliedPatchFromLog | scripts/quixbugs_opencode_go_adapter.py:1901-1990 | the outcome of the replay from the text of the log on |
| EventLog.GrowingLog | scripts/quixbugs_opencode_go_adapter.py:1888-1990 | what is reported on a log that grew by whole lines is what the machine reports when it goes on from where it stood |
| AgyStream.ParseAgyStream | scripts/agy_gemini_command_adapter.py:1085-1141 | the loop over the printed lines computes the described outcome, with the first error |
| AgyStream.AdvertisedInitTools | scripts/agy_gemini_command_adapter.py:1008-1042 | the loop over the advertised names finds the first bad one; the inventory is returned when all bounds hold |
| AgyStream.InitReason | scripts/agy_gemini_command_adapter.py:1045-1062 | an init event is passed exactly when its inventory is a list of at most 256 short names within the encoded size |
| AgyStream.NoActivity | scripts/agy_gemini_command_adapter.py:1065-1082 | no activity is reported exactly when none of the recognised marks is on the event |
| AgyStream.AcceptedIff | scripts/agy_gemini_command_adapter.py:1085-1141 | a stream is accepted exactly when its non-blank lines are safe init and step events followed by one successful final result with structured output |
| AgyStream.ParsedIff | scripts/agy_gemini_command_adapter.py:1085-1141 | the same for the printed text, control sequences and line breaks included |
| AgyMeaning.AcceptedByMembers | scripts/agy_gemini_command_adapter.py:1085-1141 | a stream is accepted exactly when its non-blank lines hold safe events and last a result with status SUCCESS, and what is returned is its structured_output, told by member names |
| AgyMeaning.PrintedStream | scripts/agy_gemini_command_adapter.py:1085-1141 | round trip: safe events and then a result, printed one a line, give the structured output of a successful result, and the matching error otherwise |
| AgyMeaning.PrintedEvent | scripts/agy_gemini_command_adapter.py:1091-1103 | what json.dumps prints of an event is one such line unless it holds U+0085, U+2028 or U+2029 |
| AgyMeaning.EventRefused | scripts/agy_gemini_command_adapter.py:1065-1130 | which error a refused event meets: its kind, then marks of activity in their order, then its payload |
| AgyStream.RefusedForGood | scripts/agy_gemini_command_adapter.py:1091-1130 | once a line is refused, every continuation ends in the same error |
| AgyStream.RefusedTextForGood | scripts/agy_gemini_command_adapter.py:1091-1130 | printed text that ends in a newline and is refused stays refused with the very same error, whatever is printed after it |
| AgyStream.ActivityRefuses | scripts/agy_gemini_command_adapter.py:1104-1106 | recognised tool or subagent activity anywhere refuses the stream and all its extensions |
| AgyStream.TwoResultsRefuse | scripts/agy_gemini_command_adapter.py:1122-1124 | two results anywhere refuse the stream and all its extensions |
| Text.SplitLinesMore | scripts/agy_gemini_command_adapter.py:1091 | text that ends in a newline splits into lines the same whatever follows |
| ControllerRuns.RunShape | agentic_debugger/agent/state_machine.py:15-44 | on every run Reproduce occurs only first, Done and Failed only last, each Validate directly after a Patch, and Done directly after a Validate |
| ControllerRuns.NeighboursInRuns | agentic_debugger/agent/state_machine.py:15-44 | which state can come right after which in a run, for every pair |
| ControllerRuns.ValidationsPaid | agentic_debugger/agent/state_machine.py:15-44 | no run validates more often than it patches |
| ControllerRuns.UnderstandFirst | agentic_debugger/agent/state_machine.py:15-44 | every run that gets anywhere but Failed starts with Reproduce, Understand |
| ControllerRuns.DoneRuns | agentic_debugger/agent/state_machine.py:15-44 | a successful run takes at least four transitions and ends in Patch, Validate, Done |
| ControllerRuns.ShortestRun | agentic_debugger/agent/state_machine.py:15-44 | four transitions are enough |
| ControllerRuns.CanStillEnd | agentic_debugger/agent/state_machine.py:15-44 | from every state but Done and Failed both ends can still be reached |
| ControllerRuns.Absorbing | agentic_debugger/agent/state_machine.py:42-43 | nothing lies ahead of Done and Failed |
| Cancellation.StepKeeps | agentic_debugger/cancellation.py:99-123 | every step of every call keeps the invariant; reason and event are only ever set |
| Cancellation.InvExec | agentic_debugger/cancellation.py:99-123 | the invariant holds after every schedule of any number of calls |
| Cancellation.ReachableState | agentic_debugger/cancellation.py:99-123 | in every reachable state a set event implies a recorded reason, so the fallback in check is dead; a recorded timeout was requested or the deadline passed; a recorded cancellation was requested |
| Cancellation.OneReason | agentic_debugger/cancellation.py:99-123 | the reason is written at most once and all errors ever raised carry it |
| Cancellation.LateChecksRaise | agentic_debugger/cancellation.py:108-123 | once a request returned or an error was raised, every check that begins later ends by raising that reason |
| Cancellation.Progress | agentic_debugger/cancellation.py:99-123 | a call moves closer to its end with every step, unless it has ended or waits for a held lock |
| Cancellation.SomeCallMoves | agentic_debugger/cancellation.py:99-123 | there is no deadlock: while a call has not ended some call can move on |
| Cancellation.FirstInLockDecides | agentic_debugger/cancellation.py:103-121 | the call that is first inside the lock decides the reason of the whole run |
| Cancellation.DeadlineCanWin | agentic_debugger/cancellation.py:111-113 | a run in which a request that began first loses to the deadline |
| Cancellation.ReturnedRequestBeatsDeadline | agentic_debugger/cancellation.py:99-123 | what a caller can rely on: once a request has returned before the deadline passed, no check of that run raises a timeout that nobody requested |
| Cancellation.DeadlineStillCanWin | agentic_debugger/cancellation.py:108-123 | conversely, from every reachable state with a deadline, no reason and a free lock the run can go on so that a check raises the timeout |
| Cancellation.RequestAlone | agentic_debugger/cancellation.py:99-106 | an uninterrupted request records the reason if none is recorded, and sets the event |
| Cancellation.CheckAlone | agentic_debugger/cancellation.py:108-123 | an uninterrupted check raises exactly when the event is set or the deadline passed |
| Cancellation.CancellationToken.Create | agentic_debugger/cancellation.py:71-82 | a deadline that is not positive is refused; a fresh token has no reason and no event |
| Cancellation.CancellationToken.Request | agentic_debugger/cancellation.py:99-106 | the object goes through the effect of an uninterrupted request |
| Cancellation.CancellationToken.Check | agentic_debugger/cancellation.py:108-123 | the object goes through the effect of an uninterrupted check |
| CapsuleTree.Node.ClearPath | scripts/build_r6_frozen_evidence_capsule.py:170-191 | deleting in place on a tree of lists and dictionaries leaves exactly the described value, within the tree it was given |
| CapsuleTree.Node.ClearEach | scripts/build_r6_frozen_evidence_capsule.py:178-184 | the loop over list items or dictionary values clears each of them |
| CapsuleTree.ClearCapsule | scripts/build_r6_frozen_evidence_capsule.py:272-273 | the loop over the protected paths |
| CapsuleClearing.ClearedAt | scripts/build_r6_frozen_evidence_capsule.py:170-191 | exactly what lies at or below the path is gone, and every other position holds what it held |
| CapsuleClearing.ScalarSurvives | scripts/build_r6_frozen_evidence_capsule.py:170-191 | a scalar survives exactly when the path does not reach it |
| CapsuleClearing.ClearsCommute | scripts/build_r6_frozen_evidence_capsule.py:170-191 | two deletions can be made in either order |
| CapsuleClearing.ClearIdempotent | scripts/build_r6_frozen_evidence_capsule.py:170-191 | deleting twice is deleting once |
| CapsuleClearing.StarClearsNothing | scripts/build_r6_frozen_evidence_capsule.py:178-185 | a path that ends in "*" deletes nothing |
| CapsuleClearing.ClearedWellFormed | scripts/build_r6_frozen_evidence_capsule.py:170-191 | deletion keeps every dictionary a dictionary |
| CapsuleClearing.CheckTelemetry | scripts/build_r6_frozen_evidence_capsule.py:229-237 | the loop over the records reports the first one that does not pass |
| CapsuleClearing.RecordReported | scripts/build_r6_frozen_evidence_capsule.py:229-237 | a record that holds a protected field is reported with that field, and passes exactly when it holds none |
| CapsuleClearing.ClearedRecordPasses | scripts/build_r6_frozen_evidence_capsule.py:229-237 | after clearing, a record passes exactly when it is an object whose directive is falsy, an object, or a list or text that does not itself hold the protected word |
| CapsuleClearing.TelemetryPasses | scripts/build_r6_frozen_evidence_capsule.py:229-237 | the telemetry checks of a cleared capsule pass exactly when all its records have such a shape |
| CapsuleClearing.EventPasses | scripts/build_r6_frozen_evidence_capsule.py:198-249 | an event that clearing accepts passes the protected-field check afterwards, and other events are untouched |
| CapsuleClearing.EventReported | scripts/build_r6_frozen_evidence_capsule.py:238-249 | an observation event that holds a protected field is reported with the first one it holds |
| TrajectoryText.EventIsOneLine | scripts/build_r6_frozen_evidence_capsule.py:211-241 | a rewritten event is read back as one line exactly when none of its keys and strings holds U+0085, U+2028 or U+2029 |
| TrajectoryText.EventReadsBack | scripts/build_r6_frozen_evidence_capsule.py:207-241 | the text of an event loads back to that event, and none of its proper prefixes loads at all |
| TrajectoryText.ClearTrajectory | scripts/build_r6_frozen_evidence_capsule.py:196-208 | the loop over the lines keeps blank lines, clears and prints the events, and raises on the first line that cannot be handled |
| TrajectoryText.TrajectoryReadsBack | scripts/build_r6_frozen_evidence_capsule.py:196-249 | the validator passes the rewritten trajectory and decodes exactly the cleared events when none of them holds such a character, and fails to decode a line otherwise |
| TrajectoryText.SplitEventFails | scripts/build_r6_frozen_evidence_capsule.py:196-249 | an observation event with U+2028 in a string: clearing accepts it, its text splits into two lines, and the validator fails on it |
| Captures.BoundedCapture.Add | scripts/agy_gemini_command_adapter.py:345-351 | after every chunk the capture holds exactly the first maximum bytes of the stream and is truncated exactly when there were more |
| Captures.ChunkCapture.Add | scripts/commandcode_goat_adapter.py:217-224 | after every chunk the whole-chunk capture holds the longest prefix of chunks that fits |
| Captures.FitsIffShort | scripts/commandcode_goat_adapter.py:217-224 | whether it drops anything depends on the bytes alone, and it holds a prefix of the first maximum bytes |
| Captures.LongestFitUnique | scripts/commandcode_goat_adapter.py:217-224 | there is only one such prefix |
| Captures.CapturesAgree | scripts/commandcode_goat_adapter.py:217-224 | fed the same stream both captures raise the same flag, and without it both hold the whole stream |
| Captures.ReadPipe | scripts/quixbugs_opencode_go_adapter.py:387-395 | the reader adds the chunks up to the first empty one |
| Captures.ReadHttpBody | scripts/ollama_cloud_command_adapter.py:756-799 | all turns but the last taken bring bytes, and the last one decides: the whole body, an error after one byte more than the bound, a timeout or a read error |
| BaselineVerdict.SelectIsFilter | scripts/quixbugs_eight_task_baseline.py:391-414 | sorting the requested names by catalogue index is filtering the catalogue, in whatever order the set lists them |
| BaselineVerdict.SelectionSame | scripts/quixbugs_eight_task_baseline.py:391-414 | order and case of the request do not matter, for the result and for the errors |
| BaselineVerdict.ExitZeroIff | scripts/quixbugs_eight_task_baseline.py:417-444 | exit code 0 exactly when the declared list was executed in its order and every task passed |
| BaselineVerdict.NoDiscrepancyIff | scripts/quixbugs_eight_task_baseline.py:447-469 | the report is free of discrepancies exactly when nothing ran twice and the declared set ran and was solved |
| BaselineVerdict.DiscrepancyMeaning | scripts/quixbugs_eight_task_baseline.py:447-469 | what each of the four lists of the report says of a name: declared and never run, run without being declared, run and never passed, run twice |
| BaselineVerdict.NoDiscrepancyPermutation | scripts/quixbugs_eight_task_baseline.py:447-469 | then, with distinct declared names, what ran is a permutation of them and all are solved |
| BaselineVerdict.ExitZeroReport | scripts/quixbugs_eight_task_baseline.py:618-621 | a complete campaign reports no discrepancy exactly when the declared names are distinct |
| BaselineVerdict.ReportedExit | scripts/quixbugs_eight_task_baseline.py:618-621 | when no discrepancy is reported, exit code 0 means exactly that the tasks ran in the declared order |
| BaselineVerdict.OrderIsNotReported | scripts/quixbugs_eight_task_baseline.py:447-469 | a run in another order exits with 1 and reports no discrepancy |
| BaselineVerdict.LoadDeclared | scripts/quixbugs_eight_task_baseline.py:355-388 | the loop accepts exactly eight well-formed entries with distinct lower-case names, and names the first malformed entry or the repeated names otherwise |
| BaselineVerdict.DeclaredMeans | scripts/quixbugs_eight_task_baseline.py:355-388 | a manifest is accepted with these names exactly when its selected_tasks are eight entries that each name an algorithm, no two the same in lower case |
| Newlines.CollapseExpand | scripts/verify_delivery_manifest_hashes.py:65 | collapsing undoes expanding on every byte string |
| Newlines.WindowsIdempotent | scripts/verify_delivery_manifest_hashes.py:65 | rewriting twice is rewriting once |
| Newlines.SameBytesIff | scripts/verify_delivery_manifest_hashes.py:65 | a text and its expanded form are rewritten to the same bytes exactly when the text holds no CRLF |
| Newlines.FixedPoints | scripts/verify_delivery_manifest_hashes.py:65 | exactly the blobs in which every line feed follows a carriage return are left as they are |

## Left out

- EventReplay.ReplayIsRun: stated for logs in which the last apply and the reverts after it equal no event before them, because otherwise the first equal event is looked up; ActionReplay.ReplayIsReport covers every log.
- EventReplay.AppliedMeaning: stated for the same logs; EventReplay.ReportedMeaning covers every log.
- PublicRequest.RecoverBuilt: the text in front of the request is any text without an equals sign, as the fixed instructions are.
- Floating point numbers are kept as the text they were read from: that Python prints them in their shortest form, compares them by value, and reads an overlong one as infinity and a tiny one as zero is not modelled.
- Lone surrogates: characters are Unicode scalar values, and the decoder and the grammar refuse an escape that would produce a lone surrogate.
- Limits of the Python runtime: recursion depth of the JSON decoder, the digit limit of integers, memory.
- The redaction patterns, the SHA-256 digest and `str.lower` are function parameters; of redaction only that it leaves text without a secret alone is used.
- Sockets, deadlines and timeouts of the stream are two outcomes of a read (`Silence`, `Failure`); HTTP reads are an arbitrary sequence of turns.
- Message texts of errors are reduced to their kind; the line number in an AGY stream error is not kept.
- `_map_usage` and all other usage accounting: rules for leaving out optional counters.
- `_diagnosis_example` is a parameter of the interactive guidance; the fixed sentences of the guidance and the text of `build_apply_patch_guidance` are constructors of a line type.
- A request history that is not a list: a mapping or text has no usable entries, anything else raises; the model treats all of them as empty.
- `_count_from_events`, `_outcome_from_live_case` and the other readers of the event log: the replay of patches is the one that is modelled.
- Aliasing inside a capsule: `json.loads` builds a tree, and the in-place deletion is proved for trees.
- The lock of the pipe captures: `add` runs under it from start to end, so calls do not interleave.
- `text()` of the captures decodes with replacement characters, which is not modelled.
- The enumeration order of the set of requested algorithm names is a parameter, and the result is shown not to depend on it.
- The manifest drift, overlap and cap checks of `validate_campaign`: comparisons of sets and counts.
- A deadline that is no number, or a reason that is no CancellationReason, is excluded by the types.
- Process launch and termination, temporary directories, authentication stores, executable identity, catalogue queries, adapter configuration checks, user interface and documentation.
