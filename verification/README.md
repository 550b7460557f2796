# Ishu session controller

Ishu is a Bengali voice assistant that runs in the browser. Its controller
(`App.tsx`) does the following:

- opens a live audio session with a remote model;
- plays the model's speech back as a chain of decoded audio chunks on the
  output device;
- collects the transcription of that speech into a rolling history of the
  last three turns;
- scans each transcription fragment for `[ACTION:…]` directives and asks for
  an image for each `GEN_IMAGE:` one;
- moves the assistant between its states: idle, key screen, connecting,
  listening, speaking and error.

This project models that controller and proves what it guarantees.

- `wrappers.dfy`: `Option`, standing for `null`, `undefined` and "no match".
- `js_string.dfy`: the JavaScript string operations the controller relies
  on.
  - The whitespace set shared by `\s` and `trim`.
  - `indexOf`, `includes`, `startsWith`, `split` (with `join` as its
    inverse) and `trim`.
- `action_parser.dfy`: the directive scanner.
  - The regular expression `/\[ACTION:\s*([A-Z0-9_:]+)\s*\]/g` is written
    out as an explicit matcher (`MatchAt`), against a declarative
    description of a match (`Shape`).
  - `exec` with `lastIndex` becomes `Exec`, and the global scan becomes
    `Matches`.
  - The `while`/`exec` loop of `handleActionParsing` is a method proved to
    return exactly the prompts of the scan.
- `action_examples.dfy`: what the scanner does with concrete kinds of
  fragment.
- `playback.dfy`: the scheduling rule `start = max(cursor, now)`, followed by
  `cursor = start + duration`, and what it guarantees for a whole run of
  chunks.
- `transcript.dfy`: the rolling history, `[entry, ...history].slice(0, 3)`.
- `session.dfy`: the assistant's states (`NovaState`, the enumeration at
  `types.ts` lines 15-22) and error classification, plus the class
  `IshuSession`.
  - `IshuSession`'s fields are the controller's mutable state: state, error
    message, cursor, active sources, current turn text and history.
  - It has one method per callback: `onopen`, `onmessage` (split into its
    audio, transcription, turn-complete and interruption parts), `onerror`,
    `onclose`, the `startIshuCall` entry and catch, `handleOpenKey`, and the
    main button.
  - Its invariant `Valid` ties the cursor to the ghost run of chunks
    scheduled since the last reset.

Times are real numbers on the output device's clock. The browser supplies
the clock reading and the decoded chunk's duration as method parameters.

## Where the code and the intended behaviour differ

The model follows the code in each of these cases.

- The system prompt (`App.tsx` line 26) asks the model to write
  `[ACTION: GEN_IMAGE: prompt]`, but the captured group `[A-Z0-9_:]+`
  cannot contain a space or a Bengali letter. A directive in that form is
  therefore never dispatched. `SystemPromptTagIgnored`, `BengaliRequestIgnored`
  and `SpacedPromptNotDispatched` prove this.
- Only a space-free upper-case form such as `[ACTION: GEN_IMAGE:CAT]` goes
  through (`SpaceFreeCatDispatched`). A Bengali request such as
  `[ACTION: GEN_IMAGE: একটি লাল গোলাপ]` yields no image request.
- A directive of any other kind (`[ACTION: FOO:X]`) is matched and
  dispatches nothing.
- The prompt is the text after the first `GEN_IMAGE:` and before the second
  one, if any.
- Each transcription fragment is scanned on its own. A directive cut across
  two fragments is never seen (`CutDirectiveUnseen`).
- An `ended` event removes its source from the set. Whenever the set is then
  empty, the state becomes LISTENING, whatever it was. This includes a
  source that an interruption already cleared, and a session that has since
  closed.
- A key error while starting a call switches to the key screen and leaves
  the error message as it was. A key error on the live session sets the
  invalid-key message.

## Model

| member | source | states |
|---|---|---|
| JsString.Span | App.tsx:111 | a greedy `\s*` or `[A-Z0-9_:]+` run: every character of the run satisfies the class, and the next one does not |
| JsString.IsSpace | App.tsx:111 | the whitespace set of `\s` and `trim`; apart from the space, it holds no printable ASCII character |
| JsString.StartsWith | App.tsx:115 | `startsWith` holds exactly when the string's prefix of the same length is the given prefix, which is when `indexOf` finds the prefix at index 0 |
| JsString.IndexOf | App.tsx:103 | `indexOf` finds the first occurrence at or after `from`, or reports that there is none at or after `from` |
| JsString.Contains | App.tsx:103 | `includes` holds exactly when the substring occurs at some index |
| JsString.Split | App.tsx:115 | `split` always yields at least one piece; two or more when the separator occurs; the first piece holds no separator; without a separator it yields the whole string |
| JsString.SplitFirstPiece | App.tsx:115 | the first piece of a split is the prefix up to the first separator, or the whole string |
| JsString.SplitLeadingSeparator | App.tsx:115 | for a string starting with the separator, piece 1 is the first piece of what follows the separator |
| JsString.SplitJoin | App.tsx:115 | joining the pieces of a split with the separator gives back the original string |
| JsString.Trim | App.tsx:115 | `trim` returns a slice of the string with only whitespace outside it, and the slice neither starts nor ends with whitespace |
| JsString.TrimWithoutSpace | App.tsx:115 | `trim` of a string without whitespace is that string |
| ActionParser.IsActionChar | App.tsx:111 | the class `[A-Z0-9_:]`; none of its characters is whitespace or a bracket |
| ActionParser.ShapeIsGreedy | App.tsx:111 | any layout of a match has the greedy spans as its boundaries, so the expression can match in at most one way at an index |
| ActionParser.MatchAt | App.tsx:111 | a match found at `i` starts at `i`, has the shape of the expression, and captures the action run |
| ActionParser.MatchAtDecided | App.tsx:111 | once the bracket, spaces, action and spaces are laid out, the expression matches exactly when the next character is `]` |
| ActionParser.MatchAtComplete | App.tsx:111 | wherever the expression can match, the matcher reports that match |
| ActionParser.Exec | App.tsx:113 | `exec` from `lastIndex` returns the leftmost match at or after it, or reports that no match starts there or later |
| ActionParser.Matches | App.tsx:111-113 | the global scan: its matches lie within the scanned part of the text, in order, each ending before the next starts |
| ActionParser.MatchesGenuine | App.tsx:111-113 | every match of the global scan is a real match of the expression within the text |
| ActionParser.MatchesLeftmost | App.tsx:111-113 | each match of the scan is the leftmost one starting after the previous match ends, so matches are in order and do not overlap |
| ActionParser.MatchesExhaustive | App.tsx:111-113 | no match starts after the end of the last one found |
| ActionParser.ImagePrompt | App.tsx:114-115 | a captured action yields a prompt exactly when it starts with `GEN_IMAGE:` |
| ActionParser.ImagePromptIsSegment | App.tsx:114-115 | the prompt is the text right after the first `GEN_IMAGE:`, up to the next one or the end; it holds no `GEN_IMAGE:` and only `[A-Z0-9_:]` characters |
| ActionParser.PromptsOfAppend | App.tsx:113-117 | a match found later dispatches its prompt after those of the earlier matches |
| ActionParser.PromptsOf | App.tsx:113-117 | a list of matches requests at most one image per match |
| ActionParser.Dispatched | App.tsx:110-119 | a fragment requests at most one image per match of the scan |
| ActionParser.HandleActionParsing | App.tsx:110-119 | the `while`/`exec` loop requests exactly the prompts of the global scan, in order |
| ActionParser.DispatchedPromptsAreActionText | App.tsx:114-116 | every dispatched prompt consists of `[A-Z0-9_:]` characters, is unchanged by `trim`, and holds no `GEN_IMAGE:` |
| ActionParser.PromptsOfActionText | App.tsx:114-116 | the same for the prompts of any list of genuine matches |
| ActionExamples.MatchStartsAtBracket | App.tsx:111 | a match can only start at `[` |
| ActionExamples.MatchNeedsClosingBracket | App.tsx:111 | a match needs a `]` after its start |
| ActionExamples.NoMatchNothingDispatched | App.tsx:110-119 | a fragment where no match starts dispatches nothing |
| ActionExamples.LoneFailedBracket | App.tsx:110-119 | a fragment whose only `[` starts no match dispatches nothing |
| ActionExamples.SpacedPromptNotDispatched | App.tsx:111 | a directive with whitespace after `GEN_IMAGE:` before a non-`]` character dispatches nothing |
| ActionExamples.WholeDirective | App.tsx:111-113 | a fragment that is one whole directive has exactly that one match |
| ActionExamples.WholeDirectivePrompts | App.tsx:110-119 | the prompts of such a fragment are those of its single match |
| ActionExamples.PromptOfSingleTag | App.tsx:114-115 | an action with a single `GEN_IMAGE:` yields everything after it as the prompt |
| ActionExamples.SpaceFreeDirectiveDispatched | App.tsx:110-119 | `[ACTION:<ws>GEN_IMAGE:<p><ws>]`, with `p` made of `[A-Z0-9_:]` characters and holding no further `GEN_IMAGE:`, requests exactly one image, of `p` |
| ActionExamples.DirectiveBrackets | App.tsx:111 | in such a directive, the only brackets are its first and last characters |
| ActionExamples.NoClosingBracketNothingDispatched | App.tsx:110-119 | a fragment without `]` dispatches nothing |
| ActionExamples.NoOpeningBracketNothingDispatched | App.tsx:110-119 | a fragment without `[` dispatches nothing |
| ActionExamples.CutDirectiveUnseen | App.tsx:168 | a directive cut between two fragments is dispatched from neither, whatever text without `[` comes before it in the first fragment and after it in the second, since each fragment is scanned alone |
| ActionExamples.SystemPromptTagIgnored | App.tsx:26 | the tag exactly as the system prompt spells it dispatches nothing |
| ActionExamples.BengaliRequestIgnored | App.tsx:111 | a Bengali image request in the system prompt's form dispatches nothing |
| ActionExamples.SpaceFreeCatDispatched | App.tsx:111-116 | `[ACTION: GEN_IMAGE:CAT]` requests exactly one image, of `CAT` |
| Playback.Max | App.tsx:153 | `Math.max` returns one of its arguments, and that one is at least as large as the other |
| Playback.ScheduledExtend | App.tsx:153-159 | scheduling a chunk at `max(cursor, now)` extends a valid run, and the cursor moves to that chunk's end |
| Playback.NoOverlap | App.tsx:153-159 | no chunk starts before it was scheduled or before the previous chunk ends |
| Playback.CursorMonotone | App.tsx:153-159 | between resets the cursor never moves back |
| Playback.Scheduled | App.tsx:153-159 | a valid run: each chunk has a non-negative duration and starts at `max(cursor, now)`, the cursor being the end of the chunks before it |
| Playback.GaplessWhenKeptUp | App.tsx:153-159 | when the device clock never passed the cursor after the first chunk, each chunk starts at the first chunk's start plus the durations of the chunks before it, so the run plays back to back |
| Playback.FirstChunkStartsNow | App.tsx:153 | the first chunk after a reset starts at the clock's time, since the cursor is then 0 |
| Playback.ResyncAfterStall | App.tsx:153 | a chunk arriving after the clock passed the cursor starts at the current clock time |
| Transcript.Take | App.tsx:172 | `slice(0, n)` returns a prefix of length `min(n, length)` |
| Transcript.Rolled | App.tsx:172 | the new history starts with the finished turn, followed by the old history, at most three entries in all |
| Transcript.Recorded | App.tsx:171 | the turns that reach the history are exactly the turns with text; when every turn had text, all of them reach it |
| Transcript.RecordedAppend | App.tsx:171 | filtering two stretches of turns one after the other gives the filtered first stretch followed by the filtered second, so the turns with text keep their order and each appears once |
| Transcript.AfterTurns | App.tsx:170-175 | folding turns into the history keeps it at most three entries long, and every entry comes from the old history or from a turn |
| Transcript.HistoryIsLatestTurns | App.tsx:170-175 | after any number of turns, the history is the three latest turns with text, newest first, followed by what it held before |
| Session.Classify | App.tsx:203-208 | an error leads to the key screen exactly when its message contains "Requested entity was not found", and to the error state otherwise |
| Session.AfterImageError | App.tsx:102-107 | a failed image request switches to the key screen on a key error, and otherwise leaves the state as it was |
| Session.StartErrorMessage | App.tsx:207 | the start error message is the error's own message when that is non-empty, and the generic message otherwise; it is never empty |
| Session.ButtonChoice | App.tsx:356 | the main button starts a call exactly when the state is idle or error |
| Session.IshuSession.constructor | App.tsx:34-48 | the controller starts idle, with no error, no audio contexts, no session, cursor 0, no sources, no text and no history |
| Session.IshuSession.InitAudio | App.tsx:78-85 | the audio contexts are created only on the first call, and exist afterwards |
| Session.IshuSession.Start | App.tsx:121-125 | starting a call clears the error, enters the connecting state and ensures the audio contexts exist |
| Session.IshuSession.OnConnected | App.tsx:200 | the established session is kept so that it can be closed |
| Session.IshuSession.OnOpen | App.tsx:138-139 | an opened session puts the assistant into the listening state |
| Session.IshuSession.ScheduleChunk | App.tsx:150-165 | a chunk starts at `max(cursor, now)` as a new source in the set, the cursor moves to its end and never back, and the assistant is speaking |
| Session.IshuSession.OnEnded | App.tsx:160-163 | an ended source leaves the set, and only it; the state becomes listening exactly when the set is empty, and is otherwise unchanged |
| Session.IshuSession.AppendTranscript | App.tsx:166-169 | a fragment is appended to the turn's text, and the fragment alone is scanned for image prompts |
| Session.IshuSession.CompleteTurn | App.tsx:170-175 | a finished turn with text is rolled into the history; the turn text is then empty; an empty turn leaves the history unchanged |
| Session.IshuSession.Interrupt | App.tsx:176-183 | every active source is told to stop, the set is emptied, the cursor is reset to 0 and the assistant is listening |
| Session.IshuSession.ReadTranscript | App.tsx:166-175 | a message's fragment, then its turn-complete flag, update the turn text and history as the two steps do in sequence |
| Session.IshuSession.OnMessage | App.tsx:149-184 | a message is handled as audio, then transcription, then turn completion, then interruption. After an interrupted message the set is empty, the cursor is 0 and the assistant listens, even if the message also carried audio. Otherwise, audio adds one source at `max(cursor, now)` |
| Session.IshuSession.OnError | App.tsx:185-194 | a live-session error sets the key screen with the invalid-key message, or the error state with the connection message, following `Classify` |
| Session.IshuSession.OnStartError | App.tsx:201-209 | a failed start sets the state by `Classify`; the error state also gets `StartErrorMessage`; a key error keeps the old message |
| Session.IshuSession.OnImageError | App.tsx:102-107 | a failed image request changes the state as `AfterImageError` says |
| Session.IshuSession.OnClose | App.tsx:195-197 | a closed session always leaves the assistant idle |
| Session.IshuSession.OpenKey | App.tsx:70-76 | with the key dialog available, re-selecting the key leaves the assistant idle with no error; without it, nothing changes |
| Session.IshuSession.PressButton | App.tsx:356 | in idle or error the button starts a call (connecting state); otherwise it requests a close when a session exists, and changes nothing itself |

## Left out

- Rendering is not modelled. This covers the key screen, the HUD, the stat
  bars and the visualiser; they are presentation only.
- The clock and CPU display timers are not modelled. They use `Date` and
  `Math.random` and drive only the display.
- The key check at mount (`hasSelectedApiKey`) is not modelled. It is a call
  into the host page; the key dialog is modelled only as a boolean argument
  of `OpenKey`.
- Network calls are not modelled: the live-session connection, sending
  microphone audio, and the image model request with its response handling
  (showing the image and logging the action). A failed image request is
  modelled as `OnImageError`.
- The microphone capture pipeline is not modelled: the stream source, the
  script processor and frame encoding. Web Audio node wiring is not modelled
  either. These are browser APIs. Creating the audio contexts is modelled
  only as the `audioReady` flag.
- The audio codec (`decode`, `decodeAudioData`, `createBlob` in
  `utils/audioHelper`) is not part of this model. A decoded chunk is given
  as its non-negative duration. A chunk that fails to decode is not
  modelled.
- Session.IshuSession.OnMessage: each message is handled as one atomic step.
  In the source the handler yields at `await decodeAudioData` after setting
  the speaking state and the cursor, so another callback can run between
  those updates and the scheduling. That interleaving is not modelled.
- Session.IshuSession.Interrupt: stopping a source is recorded in `stopped`.
  The `ended` events that a stop later causes are separate `OnEnded` calls.
- Session.IshuSession.CompleteTurn: React state updates are modelled as
  taking effect at once. The functional updater of `setTranscriptions`
  (`App.tsx` line 172) reads `currentOutputText.current` when React runs
  it, which can be after the clear on line 173; the model records the text
  as it was before the clear. That late read is not modelled.
- Session.IshuSession.AppendTranscript: a transcription whose `text` is
  `undefined` (appended as the word "undefined" in the source) is not
  modelled; a fragment is always a string.
- Times are real numbers, not floating point.
- Strings are sequences of code points rather than UTF-16 code units.
  Every character the scanner and `trim` single out lies in the Basic
  Multilingual Plane, so the answers do not change.
- The speaker role and timestamp stored with each history entry are not
  modelled; the history holds only the text.
- The log of dispatched actions and the latest image shown are not
  modelled; they are filled from the image response.
