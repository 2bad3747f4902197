# Visit transcription server: audio sessions and note diff

This project models the server core of a clinical note-taking app. A
browser streams microphone audio over a socket. The server buffers the
audio and sends it to a generative model for a transcript when recording
stops. It stores the transcript with a generated title and sends the
result back to the client's room. A second service compares a prior note
with a new transcript: it asks the model for a structured diff and
falls back to a deterministic sentence-level diff.

The modules:

- `Common`: `Option` and `Result`.
- `JsStrings`: the JavaScript string built-ins the core uses. These are
  the ECMAScript white-space set, `trim`, collapsing white space,
  `indexOf`, `split`/`join` on one character, `slice(0, n)`, and decimal
  rendering of a count.
- `JsonExtract`: `extractJson`. It tries a fenced block (tagged `json`
  first, then any fence), then the span from the first `{` to the last
  `}`, then the raw reply. The fence search is a leftmost, shortest match.
- `VisitDiff`: `generateVisitDiff`, which has three parts:
  - sentence splitting after `.`, `!` or `?` followed by white space;
  - the ordered difference capped at 25, with its two summary lines;
  - the per-field shape guard over a JSON value.
- `Titles`: `generateTitle`. It has the local rule used when no API key
  is set, the rule used when the model call throws, and the clean-up of
  the model's title.
- `GeminiTranscription`: the transcription service as a class. It holds
  the audio buffer (`resetSession`, `addAudioChunk`) and
  `getFinalTranscription`: error precedence, concatenation, mime type and
  the trimmed reply.
- `SessionRegistry`: the `activeSessions` table. It has the transition of
  each socket event, the shared audio buffer, and lemmas over sequences of
  events from many sockets.
- `AudioTranscription`: the socket server as a class.
  - Each handler is one atomic method over the session map.
  - The emitted `transcription-result` messages go to an outbox.
  - Stored transcriptions go to a record list.
  - The transcriber, the title reply, the patient lookup, the record store
    and `JSON.parse` are inputs that may fail.

Some behaviours of the code are easy to miss. Each is stated in the
Dafny:

- One audio buffer is shared by every socket, because the transcription
  service is a process-wide singleton. Start-recording on any socket
  clears every socket's audio. Finalizing does not clear the buffer, so
  audio from any socket joins the payload of every socket that stops
  before the next start-recording. See
  `SessionRegistry.BufferHoldsAudioSinceLastStart`,
  `SessionRegistry.AnotherSocketsStartDropsAudio` and
  `AudioTranscription.SharedBufferAcrossSockets`. So one connection's
  recording is not isolated from the others.
- The session entry has no recording flag. Stop-recording deletes the
  entry in all cases, and finalizing does not clear the buffer.
- No stored entry ever holds an empty session id, so a socket that
  registered a room and whose entry stays in place gets its result in
  that room (`AudioTranscription.AudioTranscriptionService.StopRecording`).
- The error path of stop-recording reads the session table again. If the
  entry was removed while the handler waited, the error goes to the
  socket id, not to the client's registered room
  (`AudioTranscription.RemovedEntryMisroutesError`). The success path
  uses the entry read at the start.
- The shape guard keeps any string `safe_disclaimer`, including the empty
  one (`VisitDiff.ShapeGuardKeepsEmptyDisclaimer`). It replaces a `changes.*` field only when that field is null or
  missing, so a present non-array value passes through.
- The clean-up of the model's title can produce the empty string, for a
  reply made of an optional leading `"`, then only `.`, `:`, `!` or `?`,
  then an optional trailing `"` (`Titles.CleanTitleShape`,
  `Titles.CleanTitleCanBeEmpty`). Only the two local title
  rules guarantee a non-empty title.

## Model

| member | source | states |
|---|---|---|
| JsStrings.Trim | server/services/geminiTranscription.ts:67 | the result has no white space at either end and is no longer than the input |
| JsStrings.TrimIsInfix | server/services/geminiTranscription.ts:67 | trim keeps one contiguous piece of the input and removes only white space around it |
| JsStrings.TrimOfTrimmed | server/services/geminiTranscription.ts:91 | a string with no white space at either end is left as it is |
| JsStrings.CollapseSpaces | server/services/geminiTranscription.ts:80 | every white space left is a single `' '`, no two are adjacent, emptiness and white space at the ends are kept |
| JsStrings.CollapseKeepsTrimmed | server/services/geminiTranscription.ts:80 | collapsing a trimmed string keeps it trimmed |
| JsStrings.CollapseSpacesRun | server/services/geminiTranscription.ts:80 | a non-empty run of white space collapses to one `' '` |
| JsStrings.CollapseSpacesWord | server/services/geminiTranscription.ts:80 | a string with no white space is kept |
| JsStrings.CollapseSpacesAppend | server/services/geminiTranscription.ts:80 | collapsing distributes over a concatenation that does not join two white spaces, so each run collapses on its own |
| JsStrings.IndexOf | server/services/geminiTranscription.ts:81 | the result is the first position holding the character, or none when it does not occur |
| JsStrings.Split | server/services/geminiTranscription.ts:83 | split never yields an empty array and no piece holds the separator |
| JsStrings.JoinSplit | server/services/geminiTranscription.ts:83 | joining the pieces of a split gives back the string |
| JsStrings.SplitJoin | server/services/geminiTranscription.ts:83 | splitting a join of separator-free pieces gives back the pieces |
| JsStrings.Join | server/services/geminiTranscription.ts:83 | definition of `join`; its properties are stated by `JsStrings.JoinSplit`, `JsStrings.SplitJoin` and `JsStrings.JoinPrefix` |
| JsStrings.JoinPrefix | server/services/geminiTranscription.ts:83 | joining the first n pieces gives a prefix of the whole join |
| JsStrings.Take | server/services/geminiTranscription.ts:106-107 | slice(0, n) keeps a prefix of the list: all of it when there are at most n items, else exactly n |
| JsStrings.NatToString | server/services/geminiTranscription.ts:110-111 | a count renders as decimal digits, one digit exactly when it is below ten, and with no leading zero (so zero is `0`) |
| JsStrings.NatToStringRoundTrip | server/services/geminiTranscription.ts:110-111 | reading the rendered digits back gives the count |
| JsonExtract.NextFence | server/services/geminiTranscription.ts:161 | the lazy group stops at the first fence after its start, or there is none |
| JsonExtract.MatchAt | server/services/geminiTranscription.ts:161 | a match exists exactly when the opener (three backticks, then `json` in any case when tagged) stands at the position and a closing fence follows the white space after it; the group starts after that white space and ends at the first fence |
| JsonExtract.SearchFence | server/services/geminiTranscription.ts:161 | the search returns a capture, and finds none only when no position from the start onwards matches |
| JsonExtract.SearchFenceLeftmost | server/services/geminiTranscription.ts:161 | a capture comes from the leftmost matching position: it is the match at some q and no position before q matches |
| JsonExtract.FenceCapture | server/services/geminiTranscription.ts:161 | definition of the `||` of the two searches; its properties are stated by `JsonExtract.FenceCapturePrecedence` |
| JsonExtract.FenceCapturePrecedence | server/services/geminiTranscription.ts:161 | when any tagged fence matches, the tagged search decides the capture; only when none does is the untagged search used |
| JsonExtract.LastIndexOf | server/services/geminiTranscription.ts:166 | the result is the last position holding the character, or none when it does not occur |
| JsonExtract.ExtractJson | server/services/geminiTranscription.ts:160-171 | the extracted text is always a contiguous piece of the reply |
| JsonExtract.ExtractJsonFenced | server/services/geminiTranscription.ts:161-164 | a non-empty fenced capture is returned as it is, and it holds no fence |
| JsonExtract.ExtractJsonBraces | server/services/geminiTranscription.ts:165-169 | otherwise, with a `{` before a `}`, the result starts with `{`, ends with `}`, and spans from the first `{` to the last `}` |
| JsonExtract.ExtractJsonRaw | server/services/geminiTranscription.ts:170 | otherwise the reply is returned unchanged |
| JsonExtract.ExtractJsonExample | server/services/geminiTranscription.ts:161-163 | a tagged fence around an object yields its content, after the white space following the tag |
| VisitDiff.SplitFrom | server/services/geminiTranscription.ts:104 | splitting always yields at least one piece |
| VisitDiff.SplitFromNoBoundary | server/services/geminiTranscription.ts:104 | no piece contains a terminator followed by white space |
| VisitDiff.SplitFromRoundTrip | server/services/geminiTranscription.ts:104 | putting back the white-space runs between the pieces gives the text: one run fewer than pieces, and nothing is lost |
| VisitDiff.SplitFromCuts | server/services/geminiTranscription.ts:104 | every cut is a maximal white-space run right after `.`, `!` or `?`: the piece before it is non-empty and ends with a terminator, the piece after it starts with no white space |
| VisitDiff.TrimmedPieces | server/services/geminiTranscription.ts:104 | the filter never lengthens the list |
| VisitDiff.TrimmedPiecesMembers | server/services/geminiTranscription.ts:104 | a string is kept exactly when it is the non-empty trim of some piece, and every kept string is trimmed |
| VisitDiff.TrimmedPiecesAppend | server/services/geminiTranscription.ts:104 | trimming and filtering distributes over concatenating piece lists, so it keeps order |
| VisitDiff.Sentences | server/services/geminiTranscription.ts:104-105 | definition of the sentence list; its properties are stated by `VisitDiff.SentencesMembers` |
| VisitDiff.SentencesMembers | server/services/geminiTranscription.ts:104-105 | a string is a sentence exactly when it is the non-empty trim of a split piece; pieces straddle no sentence boundary |
| VisitDiff.Missing | server/services/geminiTranscription.ts:106-107 | the difference is never longer than the first list |
| VisitDiff.MissingMembers | server/services/geminiTranscription.ts:106-107 | an item is in the difference exactly when it is in the first list and not in the second |
| VisitDiff.MissingAppend | server/services/geminiTranscription.ts:106-107 | the difference keeps the order of the first list |
| VisitDiff.MissingCount | server/services/geminiTranscription.ts:106-107 | duplicates are kept: each absent item occurs as often as in the first list |
| VisitDiff.SentenceChanges | server/services/geminiTranscription.ts:106-107 | both lists are capped at 25; their content is stated by `VisitDiff.FallbackMembership` |
| VisitDiff.FallbackMembership | server/services/geminiTranscription.ts:104-107 | new items are current sentences missing from the prior note, resolved items the reverse, each a prefix of the full difference in order; below the cap each list IS the difference, every sentence as often as it occurs; above it exactly 25 |
| VisitDiff.AddedLine | server/services/geminiTranscription.ts:110 | definition of the first summary line; read back by `VisitDiff.AddedLineReadsBack` |
| VisitDiff.ResolvedLine | server/services/geminiTranscription.ts:111 | definition of the second summary line; read back by `VisitDiff.ResolvedLineReadsBack` |
| VisitDiff.FallbackResult | server/services/geminiTranscription.ts:102-117 | definition of the deterministic diff; its properties are stated by `VisitDiff.FallbackMembership`, `VisitDiff.FallbackShape` and `VisitDiff.FallbackExample` |
| VisitDiff.FallbackShape | server/services/geminiTranscription.ts:108-116 | worsened, improved, unchanged and nudges are empty; the summary is the two count lines; the disclaimer is the fixed non-empty text |
| VisitDiff.AddedLineReadsBack | server/services/geminiTranscription.ts:110 | the first summary line reads back as the number of new statements |
| VisitDiff.ResolvedLineReadsBack | server/services/geminiTranscription.ts:111 | the second summary line reads back as the number of resolved statements |
| VisitDiff.OrEmptyArray | server/services/geminiTranscription.ts:131-135 | `?? []` replaces only null or undefined and keeps any other value |
| VisitDiff.ShapeGuard | server/services/geminiTranscription.ts:126-139 | the guard fails exactly on a null value, where the field access throws; otherwise no change field is null |
| VisitDiff.ShapeGuardKeepsValid | server/services/geminiTranscription.ts:128-139 | a well-shaped reply passes through the guard unchanged |
| VisitDiff.ShapeGuardMissingNudges | server/services/geminiTranscription.ts:137 | a reply lacking only `nudges` keeps every other field and gets empty nudges |
| VisitDiff.ShapeGuardDefaults | server/services/geminiTranscription.ts:128-139 | each field is defaulted on its own: a non-array summary or nudges becomes empty and an array is kept; a non-string disclaimer becomes the fixed text and a string is kept; a null or missing change becomes empty and a present one is kept (`ArrayOrEmpty` is `Array.isArray(v) ? v : []`, `Field`/`OptionalField` are `v.key`/`v?.key`, `ChangeField` is `parsed?.changes?.[key] ?? []`) |
| VisitDiff.ShapeGuardKeepsEmptyDisclaimer | server/services/geminiTranscription.ts:138 | an empty string disclaimer is kept as it is, not replaced by the fixed text |
| VisitDiff.GenerateVisitDiff | server/services/geminiTranscription.ts:101-158 | the result never has a null change field |
| VisitDiff.GenerateVisitDiffPaths | server/services/geminiTranscription.ts:101-139 | without an API key the result is the deterministic diff; with a reply that parses to a non-null value it is that value through the shape guard |
| VisitDiff.FailureEqualsFallback | server/services/geminiTranscription.ts:140-157 | a thrown call, a parse failure or a null parse gives exactly the result of the unconfigured path |
| VisitDiff.ValidReplyIsUsed | server/services/geminiTranscription.ts:121-139 | a reply holding a well-shaped result is returned as the model wrote it |
| VisitDiff.TwoSentences | server/services/geminiTranscription.ts:104 | `x. y.` splits into `x.` and `y.` |
| VisitDiff.ShiftedNotes | server/services/geminiTranscription.ts:104-107 | "A. B." against "B. C." (for any three distinct letters) gives new ["C."] and resolved ["A."] |
| VisitDiff.FallbackExample | server/services/geminiTranscription.ts:104-116 | the same example yields empty judgement fields and a summary counting one of each |
| Titles.OrUntitled | server/services/geminiTranscription.ts:84 | the empty title becomes "Untitled" and a non-empty one is kept |
| Titles.FirstWordsProperties | server/services/geminiTranscription.ts:83 | the first n words are the first n pieces of the text and a prefix of it |
| Titles.FirstWords | server/services/geminiTranscription.ts:83 | definition of split, slice and join; its properties are stated by `Titles.FirstWordsProperties` and `Titles.FirstWordsNonEmpty` |
| Titles.FirstWordsNonEmpty | server/services/geminiTranscription.ts:83-84 | the first words of a non-empty text that does not start with a space are non-empty, so `Untitled` is not used |
| Titles.Cleaned | server/services/geminiTranscription.ts:80 | the cleaned transcript has no white space at either end |
| Titles.FirstSentence | server/services/geminiTranscription.ts:80-82 | the first sentence is the prefix of the cleaned text before its first `.`, or all of it when there is none |
| Titles.LocalTitle | server/services/geminiTranscription.ts:78-85 | definition of the local title; its properties are stated by `Titles.LocalTitleProperties` |
| Titles.LocalTitleProperties | server/services/geminiTranscription.ts:78-85 | an empty first sentence gives "Untitled"; otherwise the title is a prefix of the first sentence whose words are its first ten words; it is never empty and holds no `.` |
| Titles.ErrorTitle | server/services/geminiTranscription.ts:96-97 | definition of the error title; its properties are stated by `Titles.ErrorTitleProperties` |
| Titles.ErrorTitleProperties | server/services/geminiTranscription.ts:93-97 | an empty cleaned transcript gives "Untitled"; otherwise the title is a prefix of the cleaned transcript whose words are its first eight words; it is never empty |
| Titles.QuoteStart | server/services/geminiTranscription.ts:92 | the title starts at 1 exactly when it begins with `"`, else at 0 |
| Titles.QuoteEnd | server/services/geminiTranscription.ts:92 | the title loses its last character exactly when that is a `"` not already taken as the leading one |
| Titles.StripQuotes | server/services/geminiTranscription.ts:92 | one leading `"` and one trailing `"` are removed, each only where present, a lone `"` once; nothing else changes |
| Titles.StripTrailingPunct | server/services/geminiTranscription.ts:92 | definition of the second replace; its properties are stated by `Titles.StripTrailingPunctShape` |
| Titles.PunctRunStart | server/services/geminiTranscription.ts:92 | finds the start of the maximal run of `.:!?` at the end |
| Titles.StripTrailingPunctShape | server/services/geminiTranscription.ts:92 | dropping trailing punctuation keeps a prefix, removes only `.:!?`, and leaves none at the end |
| Titles.CleanTitleShape | server/services/geminiTranscription.ts:91-92 | the cleaned title is the trimmed reply with an optional leading `"` removed, cut just before an optional trailing `"` and the run of closing punctuation before it; it never ends in `.`, `:`, `!` or `?` |
| Titles.CleanTitle | server/services/geminiTranscription.ts:91-92 | definition of trim and the two replaces; its properties are stated by `Titles.CleanTitleShape` and `Titles.CleanedFromUnique` |
| Titles.CleanedFromUnique | server/services/geminiTranscription.ts:92 | that description fixes the title: two titles it fits are equal |
| Titles.CleanTitleKeepsCleanTitle | server/services/geminiTranscription.ts:91-92 | a title with no quotes and no closing punctuation is kept as the model wrote it |
| Titles.CleanTitleCanBeEmpty | server/services/geminiTranscription.ts:92 | a reply made of a closing mark between quotes is cleaned to the empty title |
| Titles.GenerateTitle | server/services/geminiTranscription.ts:77-99 | definition of the three title paths; its properties are stated by `Titles.GenerateTitleProperties` |
| Titles.GenerateTitleProperties | server/services/geminiTranscription.ts:77-99 | the two fallback titles (no API key, or a thrown call) are never empty; a reply yields the trimmed reply with its quote and closing punctuation cut, as `Titles.CleanTitleShape` describes |
| GeminiTranscription.ConcatAppend | server/services/geminiTranscription.ts:56 | concatenation distributes over appending fragments |
| GeminiTranscription.Concat | server/services/geminiTranscription.ts:56 | definition of `Buffer.concat`; its properties are stated by `GeminiTranscription.ConcatAppend` and `GeminiTranscription.ConcatPlacesFragment` |
| GeminiTranscription.ConcatPlacesFragment | server/services/geminiTranscription.ts:56 | each fragment appears whole in the payload, after the fragments before it |
| GeminiTranscription.MimeOrDefault | server/services/geminiTranscription.ts:52 | the mime type is the option when it is non-empty, else `audio/webm`, and never empty |
| GeminiTranscription.PrepareRequest | server/services/geminiTranscription.ts:43-56 | not configured fails first, then an empty buffer; a request is made exactly when configured with audio |
| GeminiTranscription.FinalOutcome | server/services/geminiTranscription.ts:43-75 | definition of the final transcription outcome; its properties are stated by `GeminiTranscription.PrepareRequest`, `GeminiTranscription.ModelNotCalledOnEarlyFailure` and `GeminiTranscription.ModelReceivesBuffer` |
| GeminiTranscription.ModelNotCalledOnEarlyFailure | server/services/geminiTranscription.ts:43-50 | in those two cases the outcome is the same whatever the transcriber does, with the fixed messages |
| GeminiTranscription.ModelReceivesBuffer | server/services/geminiTranscription.ts:52-74 | otherwise the transcriber gets the concatenated buffer and the mime type; the result is its trimmed reply, complete, or its error |
| GeminiTranscription.GeminiTranscriptionService.constructor | server/services/geminiTranscription.ts:17-24 | configured exactly when an API key is present and non-empty; the buffer and transcript start empty |
| GeminiTranscription.GeminiTranscriptionService.ResetSession | server/services/geminiTranscription.ts:33-36 | the buffer and the transcript are emptied |
| GeminiTranscription.GeminiTranscriptionService.AddAudioChunk | server/services/geminiTranscription.ts:38-41 | exactly one fragment is appended at the end and earlier fragments are unchanged |
| GeminiTranscription.GeminiTranscriptionService.GetFinalTranscription | server/services/geminiTranscription.ts:43-75 | the result is the final outcome on the buffer; the buffer is unchanged; the transcript is kept only on success |
| SessionRegistry.Target | server/websocket/audioTranscription.ts:114 | the room is the session id when it is non-empty, else the socket id, and never empty for a non-empty socket id |
| SessionRegistry.Lookup | server/websocket/audioTranscription.ts:71 | definition of the `||` default entry; used by `SessionRegistry.NextSessionsEntry` and `SessionRegistry.CountSinceOwnStart` |
| SessionRegistry.NextSessions | server/websocket/audioTranscription.ts:28-139 | definition of each handler's table transition; its properties are stated by `SessionRegistry.NextSessionsFrame` and `SessionRegistry.NextSessionsEntry` |
| SessionRegistry.NextBuffer | server/websocket/audioTranscription.ts:39-57 | definition of the shared buffer's transition; its properties are stated by `SessionRegistry.BufferHoldsAudioSinceLastStart` |
| SessionRegistry.NextSessionsFrame | server/websocket/audioTranscription.ts:28-139 | each handler touches only its own socket's entry; the entry exists after register, start and audio-data, and is gone after stop and disconnect |
| SessionRegistry.NextSessionsEntry | server/websocket/audioTranscription.ts:28-66 | register sets the room only to a non-empty id and keeps the rest; start takes patient and mime type, keeps the room and zeroes the count; audio-data adds exactly one |
| SessionRegistry.NextSessionsKeepsNoEmptyIds | server/websocket/audioTranscription.ts:29-34 | no entry ever stores an empty session id |
| SessionRegistry.OtherSocketsKeepEntry | server/websocket/audioTranscription.ts:28-139 | a socket that sends nothing keeps its entry, whatever other sockets do |
| SessionRegistry.BufferHoldsAudioSinceLastStart | server/websocket/audioTranscription.ts:39-66 | the shared buffer holds the fragments of every socket since the last start-recording of any socket |
| SessionRegistry.BufferWithoutStart | server/websocket/audioTranscription.ts:53-57 | with no start-recording in the trace, the shared buffer keeps what it held and gains every socket's fragments in arrival order |
| SessionRegistry.CountSinceOwnStart | server/websocket/audioTranscription.ts:39-66 | a socket's count is the number of fragments it sent since its own start |
| SessionRegistry.RoomSinceRegister | server/websocket/audioTranscription.ts:28-51 | after a socket registers a non-empty room, its results go there until it registers another one, stops or disconnects |
| SessionRegistry.AnotherSocketsStartDropsAudio | server/websocket/audioTranscription.ts:39-59 | a start on socket b empties the buffer while socket a's count still says one fragment |
| SessionRegistry.AnotherSocketsAudioJoinsPayload | server/websocket/audioTranscription.ts:53-57 | a fragment from socket b ends up in the payload socket a finalizes |
| AudioTranscription.StopMimeType | server/websocket/audioTranscription.ts:78 | the stop handler's default and the service's default agree on the mime type sent |
| AudioTranscription.StopOutcomeOf | server/websocket/audioTranscription.ts:78-115 | definition of the stop handler's try block; its properties are stated by `AudioTranscription.StopOutcomeDelivers` and `AudioTranscription.StopRecordTitle` |
| AudioTranscription.StopOutcomeDelivers | server/websocket/audioTranscription.ts:86-115 | a transcript is delivered exactly when transcription and every persistence step that ran succeed; it is delivered unaltered, and a record holds that text for a non-empty patient |
| AudioTranscription.StopRecordTitle | server/websocket/audioTranscription.ts:94-98 | the stored title is the fallback title when the title call throws, else the cleaned model title |
| AudioTranscription.StopEmission | server/websocket/audioTranscription.ts:114-125 | definition of the one emission; its properties are stated by `AudioTranscription.StopEmissionPayload` and `AudioTranscription.StopEmissionRoom` |
| AudioTranscription.StopEmissionPayload | server/websocket/audioTranscription.ts:114-125 | one `transcription-result` goes out: the delivered result, or the fixed error text, complete |
| AudioTranscription.StopEmissionRoom | server/websocket/audioTranscription.ts:114-121 | success goes to the snapshot's room; an error goes to the room read again, which is the socket id when the entry was removed meanwhile |
| AudioTranscription.RemovedEntryMisroutesError | server/websocket/audioTranscription.ts:118-129 | a registered socket whose entry was removed before the catch gets its error at the socket id, not at its room |
| AudioTranscription.AudioTranscriptionService.constructor | server/websocket/audioTranscription.ts:9-19 | starts with an empty session table and nothing emitted or stored |
| AudioTranscription.AudioTranscriptionService.RegisterSession | server/websocket/audioTranscription.ts:28-37 | the table moves by the register transition, nothing is emitted, and no entry gets an empty session id |
| AudioTranscription.AudioTranscriptionService.StartRecording | server/websocket/audioTranscription.ts:39-51 | the table moves by the start transition, and the shared buffer and transcript are emptied |
| AudioTranscription.AudioTranscriptionService.AudioData | server/websocket/audioTranscription.ts:53-66 | the table moves by the audio transition and the chunk is appended to the shared buffer |
| AudioTranscription.AudioTranscriptionService.StopRecording | server/websocket/audioTranscription.ts:68-133 | exactly one emission, from the outcome; a record only when the outcome stored one; the entry is always deleted; the buffer is unchanged; with a registered room and no removal meanwhile, the emission goes to that room |
| AudioTranscription.AudioTranscriptionService.Disconnect | server/websocket/audioTranscription.ts:135-139 | the socket's entry is deleted and nothing else changes |
| AudioTranscription.SharedBufferAcrossSockets | server/websocket/audioTranscription.ts:39-78 | a start on socket b makes socket a's stop send the error result, although a sent audio |

## Left out

- The calls to the generative model (`getGenerativeModel`, `generateContent`) are external. They are inputs: a transcriber function, an optional title reply and an optional diff reply, each of which may fail. The transcription prompt, the model name and the base64 encoding of the payload are not modelled; the transcriber receives the raw bytes.
- `JSON.parse` is a function parameter returning a `Json` value or nothing. JSON numbers are integers, because the core never inspects them. An object maps each key to one value.
- Socket.IO transport (`io.on`, `socket.join`, the CORS options) is left out. `io.to(room).emit` is an append to an outbox.
- Logging, `Date.now` timings, dotenv loading and the singleton accessor `getInstance` are left out. The singleton appears only as the one service object the socket server holds.
- The database client is an input. `patient.findFirst` is `PatientLookup`, and `transcription.create` is a boolean saying whether it succeeds. The returned row and its id are not modelled.
- Each handler is atomic, so concurrency is not modelled. The one interleaving modelled is the boolean `removedMeanwhile`: the entry was deleted by a disconnect while stop-recording waited. Other events from the same or other sockets during that wait are not modelled; among them is a register-session from the same socket, after which the catch block's second read sends the error to the new room.
- A register-session payload that is not an object, or whose `sessionId` is not a string, is not modelled. Missing and empty ids are.
- An audio-data event without a chunk is not modelled. Every event carries a byte sequence.
- Strings are sequences of Unicode scalar values, not UTF-16 code units. This matters only for characters outside the Basic Multilingual Plane, which the white-space set and the regexes never match.
- JsStrings.Split: models `split` with a one-character string separator only, because that is the only way the core calls it.
- GeminiTranscription.GeminiTranscriptionService.GetFinalTranscription: the rethrown error is modelled as its message only.
