# NVChatboard chat store and streaming reply, in Dafny

NVChatboard is a React chat client for a local LM Studio model. Its `App`
component keeps a list of chat sessions, an active session, a message box
and a `loading` flag. It creates, deletes, renames, duplicates and reloads
sessions. On send, it posts the active session to a chat-completions
endpoint and builds the assistant's reply from the server-sent-event stream,
token by token.

This project models that state and its operations, and proves what they do:

- `text.dfy` (module `Text`): the JavaScript string operations used, namely
  `trim` with the ECMAScript white-space set, `startsWith`, `slice(0, n)` and
  `split` on one character.
- `chat.dfy` (module `Chat`): sessions and messages as datatypes. The array
  expressions that derive each new `sessions` value are functions: `filter`,
  `map` with spread, prepend, append and replace-last. The load-time id
  backfill and the Duplicate copy are functions too. Lemmas state what each
  one changes and what it keeps.
- `stream.dfy` (module `Stream`): the line decoder of the reader loop as a
  state machine over an accumulator and a `done` flag. It is related to an
  independent description: the frames of the body, and the tokens before the
  first `[DONE]`.
- `send.dfy` (module `Send`): the whole effect of `handleSend` as one
  function of the store before the call, the message box, the server's
  response and the frame parser.
- `app.dfy` (module `App`): the component's state as the class `ChatApp`.
  React `setX` calls are assignments to its fields, and the handlers are
  methods. `handleSend`'s reader loop (`while (!done)` with an inner `for`
  and `break`) is imperative, with loop invariants. It is proved to end in
  exactly the state `Send.SendSpec` describes.

Modelling choices:

- Ids are natural numbers from a counter `nextId`, instead of the source's
  `Date.now()`/`Math.random()` strings. The store's invariant `Valid()` says
  every session id and message id is below the counter and the active id
  names an existing session or is null. Every handler keeps it: ids handed
  out are fresh.
- `JSON.parse(data)` followed by `choices?.[0]?.delta?.content || ""` is an
  oracle `parse: string -> Option<string>`. `None` means the parse throws, and
  the line is skipped. `Some("")` means the token is missing or empty.
- The response is `Rejected` when `fetch` throws, the response is not ok, or
  it has no body; all three reach the `catch` before any placeholder exists.
  Otherwise the response is `Streamed(reads)`, where a read is a decoded
  chunk or `Broken`, a `reader.read()` that throws. Past the last read, the
  reader reports `done` with an empty chunk, as the browser does.
- The store is updated as if every state update applies at once and in
  order, which is how the handlers read when each `setX` takes effect
  immediately.

In four places the code does what one might not expect; the model follows the code:

- Each chunk is split on `'\n'` by itself. A line cut across two chunks is
  decoded as two lines, because the code carries nothing over
  (src/App.js:305-310). `Stream.FeedAfterNewline` proves that a cut right
  after a newline is harmless.
- `handleSend` has no busy guard. Only the send button is disabled while
  `loading` (src/App.js:967), so `HandleSend` does not look at `loading`.
- The auto-rename test is `title.startsWith("New")` on the title the chat
  had when send was pressed, not equality with "New Conversation". The
  comment at src/App.js:344 means it for a chat that still has its default
  title, but any title starting with "New" qualifies: a user's "Newsletter",
  or a title a first rename took from an input such as "New York trip".
  Such a chat is renamed after every finished send (`Send.RenameAgain`).
- The load effect calls `JSON.parse` on the snapshot without a `try`. A
  corrupt snapshot therefore throws instead of falling back to an empty
  store. The model takes the snapshot already parsed (see Left out).

## Model

| member | source | states |
|---|---|---|
| Text.TrimShape | src/App.js:309 | `trim` yields an infix of the string that neither starts nor ends with white space, with only white space before and after it |
| Text.Trim | src/App.js:309 | `s.trim()`: `trimStart` then `trimEnd`, never longer than `s`; `TrimShape` states what it keeps |
| Text.TrimStartShape | src/App.js:309 | the white space dropped from the front is exactly a maximal white-space prefix, and what is kept does not start with white space |
| Text.TrimEndShape | src/App.js:309 | the white space dropped from the back is exactly a maximal white-space suffix, and what is kept does not end with white space |
| Text.TrimOfTrimmed | src/App.js:314 | a string with no white space at either end is its own trim |
| Text.TrimAfterSpace | src/App.js:314 | a leading white-space character before a trimmed string disappears under `trim` |
| Text.BlankIffAllSpace | src/App.js:231 | `!s.trim()` holds exactly when every character of `s` is white space |
| Text.IsBlank | src/App.js:231 | `!s.trim()`: the trimmed string is empty; `BlankIffAllSpace` characterises it |
| Text.StartsWith | src/App.js:313 | `s.startsWith(p)`: `p` is no longer than `s` and is its prefix |
| Text.TrimIdempotent | src/App.js:309-314 | trimming the already trimmed line again changes nothing |
| Text.Take | src/App.js:351 | `slice(0, n)` is the prefix of length `min(n, length)` |
| Text.Split | src/App.js:308 | `split("\n")` gives at least one piece and no piece contains the separator |
| Text.JoinSplit | src/App.js:308 | joining the pieces with the separator gives back the chunk, so splitting loses no character |
| Text.SplitJoin | src/App.js:308 | splitting a join of separator-free pieces gives back exactly those pieces |
| Text.SplitAtSep | src/App.js:308 | splitting at a separator that is present splits both sides separately and concatenates the results |
| Stream.NonEmptyTrimsShape | src/App.js:307-310 | every line the loop looks at is non-empty and trimmed |
| Stream.Lines | src/App.js:307-310 | `chunk.split("\n").map(trim).filter(line => line !== "")`; `NonEmptyTrimsShape` and `LinesAtNewline` state its properties |
| Stream.Payload | src/App.js:314 | `line.replace("data:", "").trim()` on a line that starts with `data:`: the first occurrence is the prefix, so the payload is the trimmed rest |
| Stream.Classify | src/App.js:313-322 | a line is a frame exactly when it starts with `data:`, and a token frame carries a non-empty token |
| Stream.ClassifyCases | src/App.js:313-322 | a line is `[DONE]` exactly when it is a `data:` line with that payload; it is skipped exactly when its payload does not parse or gives no token; it is a token exactly when the payload parses to a non-empty one, and then it carries that token |
| Stream.Step | src/App.js:315-323 | one line's effect on the loop: `[DONE]` sets `done`, a token is appended, anything else changes nothing |
| Stream.Feed | src/App.js:305-341 | one chunk: its lines scanned in order from the decoder state; `ScanSpec` states the result |
| Stream.ScanFrom | src/App.js:312-341 | once `done` is set the scan changes nothing, and the accumulator only ever grows at its end |
| Stream.Drain | src/App.js:302-342 | the reply text read from the stream extends the text already accumulated |
| Stream.ScanSpec | src/App.js:312-341 | after one chunk the accumulator is the old text followed by the non-empty tokens before the chunk's first `[DONE]`, and `done` is set exactly when the chunk has a `[DONE]` line |
| Stream.DrainChunk | src/App.js:302-342 | one turn of the reader loop consumes one chunk's frames and stops exactly when they contain `[DONE]` |
| Stream.DrainSpec | src/App.js:302-342 | the reply is the in-order concatenation of all non-empty tokens before the first `[DONE]` and before the first failing read; the loop fails exactly when a read throws before any `[DONE]` |
| Stream.DeltasAppend | src/App.js:315-318 | the tokens of two frame lists are those of the first and, only when the first has no `[DONE]`, those of the second |
| Stream.LinesAtNewline | src/App.js:307-310 | the lines of `a + "\n" + b` are the lines of `a` followed by the lines of `b` |
| Stream.ScanFromAppend | src/App.js:312-341 | scanning two line lists in a row is scanning their concatenation |
| Stream.FeedAtNewline | src/App.js:302-310 | feeding chunk `a` and then chunk `b` is feeding the single chunk `a + "\n" + b`: a chunk boundary ends a line as a newline does |
| Stream.FeedAfterNewline | src/App.js:302-310 | feeding a chunk that ends in a newline and then another chunk is feeding their concatenation |
| Stream.InertLine | src/App.js:313-339 | a non-`data:` line, a payload that does not parse, or an empty token can be removed without changing the scan |
| Stream.SentinelStops | src/App.js:315-318 | a `[DONE]` line sets `done`, and nothing after it in the chunk is looked at |
| Stream.DoneEndsLoop | src/App.js:302-318 | once a chunk sets `done` no further read is made, not even one that would throw |
| Stream.DataLine | src/App.js:309-314 | a `data: ` line with a trimmed payload survives the line trim and yields exactly that payload |
| Stream.FrameChunkLines | src/App.js:307-310 | a chunk with one `data: ` frame followed by a blank line has exactly that one line |
| Stream.FeedFrame | src/App.js:305-341 | feeding a one-frame chunk to a running decoder applies that frame's step |
| Stream.FeedToken | src/App.js:319-323 | a frame whose payload parses to a non-empty token appends the token and keeps the loop going |
| Stream.FeedSkip | src/App.js:319-339 | a frame whose payload does not parse, or parses to no token, leaves the decoder as it was |
| Stream.FeedDone | src/App.js:315-317 | the `[DONE]` frame ends the loop and leaves the text as it is |
| Stream.TokensThenDone | src/App.js:302-342 | two token frames and `[DONE]`, one per chunk, give the two tokens in order; `[DONE]` alone gives an empty reply, not an error |
| Chat.Find | src/App.js:176 | `find` returns nothing exactly when no session has the id, and otherwise the first session with it |
| Chat.UpdateWhereAt | src/App.js:239-243 | `map(s => s.id === id ? f(s) : s)` rewrites exactly the sessions with the id and keeps the others |
| Chat.RenameIn | src/App.js:226-228 | `prev.map(s => s.id === id ? {...s, title} : s)`, keeping the length; `RenameInAt` states it per index |
| Chat.AppendTo | src/App.js:239-243 | `prev.map(s => s.id === id ? {...s, messages: [...s.messages, m]} : s)`, keeping the length; `AppendToAt` states it per index, and the placeholder (lines 282-300) and the error message (lines 355-373) use it too |
| Chat.RenameInAt | src/App.js:226-228 | renaming sets the title of the sessions with the id; every id, every message and every other title stay |
| Chat.AppendToAt | src/App.js:239-243 | appending puts the message after the messages of the sessions with the id; ids, titles and the other sessions stay |
| Chat.ReplaceLast | src/App.js:329-333 | the last message gets the new content, every earlier message stays, the count is unchanged, and an empty list stays empty |
| Chat.ReplaceLastIn | src/App.js:324-337 | the streaming update of the last message of the chats with the id, keeping the length; `ReplaceLastInAt` states it per index |
| Chat.ReplaceLastInAt | src/App.js:324-337 | the streaming update rewrites the last message of the sessions with the id and nothing else |
| Chat.SuggestionTitle | src/App.js:196 | the suggestion title is the text when it has at most 30 characters and its first 30 otherwise, so never longer than 30 |
| Chat.NewSession | src/App.js:179-183 | a new chat has the given id and title and no messages, as `createNewChat` and `handleSuggestion` (lines 194-198) build it |
| Chat.Without | src/App.js:213 | every session left lacks the id and was there before, and every session without the id is kept |
| Chat.NextActive | src/App.js:215-217 | the active id after a delete: the first chat left when the active one went, null when none is left, otherwise unchanged; `DeleteKeepsInvariant` shows it is valid |
| Chat.WithoutAppend | src/App.js:213 | `filter` keeps order: filtering a concatenation filters each part |
| Chat.WithoutAbsent | src/App.js:212-214 | deleting an id no session has changes nothing |
| Chat.DeleteKeepsInvariant | src/App.js:212-218 | after a delete no session has the id, every id stays fresh-bounded, and the reassigned active id names a remaining session or is null |
| Chat.RenameTwice | src/App.js:226-228 | renaming twice is renaming once, to the second title |
| Chat.RenameRestores | src/App.js:226-228 | renaming a chat to the title it has gives back the same collection |
| Chat.InlineTitle | src/App.js:445-454 | the inline editor's title is the trimmed text, or "Untitled" when that is empty, so it is never empty and never has white space at either end |
| Chat.ReplaceLastAfterAppend | src/App.js:282-337 | a streaming update right after the placeholder was appended is the same as appending a placeholder with that content |
| Chat.ReplaceLastOverwrites | src/App.js:324-337 | a later streaming update overwrites an earlier one |
| Chat.Renumber | src/App.js:533-538 | every copied message keeps role and content and gets the next fresh id, in order |
| Chat.Copy | src/App.js:527-539 | the copy has the fresh id, the title with " (copy)" appended, the same number of messages with equal role and content at every index, and fresh consecutive message ids |
| Chat.DuplicateFresh | src/App.js:527-540 | the copy's id names no session and differs from the original's; its message ids differ from each other and from every message id in the store; the store with the copy in front keeps every id below the advanced counter |
| Chat.FillMessages | src/App.js:145-154 | backfilling keeps every message's role and content, keeps present ids, and gives each missing id a value from the counter's range |
| Chat.FillFreshIncreasing | src/App.js:145-154 | the filled-in ids increase along the list, so no two of them clash |
| Chat.Backfill | src/App.js:143-155 | the stored sessions with each message list backfilled in turn from the counter: as many sessions as stored and a counter that never goes back; `BackfillKeeps`, `BackfillMessages` and `BackfillIdsBelow` state what it keeps |
| Chat.BackfillKeeps | src/App.js:143-155 | loading keeps every session's id and title, in order |
| Chat.BackfillMessages | src/App.js:143-155 | loading keeps every stored message of every session: as many messages, the same roles and contents, and every stored id; only missing ids are filled in |
| Chat.Save | src/App.js:168 | `JSON.stringify(sessions)` as a snapshot: one stored session per session, every message with its id; `LoadSaveRoundTrip` states the round trip |
| Chat.FillSaved | src/App.js:145-154 | a saved message list has every id, so backfilling leaves it as it is and draws no id |
| Chat.LoadSaveRoundTrip | src/App.js:143-169 | loading a snapshot the store saved gives back the same sessions and draws no fresh id |
| Chat.BackfillIdsBelow | src/App.js:143-157 | with the counter above every stored id, every id after loading is below the counter the backfill returns |
| Send.OutcomeOf | src/App.js:260-342 | the request is refused exactly when the response is a rejection; a streamed response ends where the reader loop ends |
| Send.Proceeds | src/App.js:231 | the guard `input.trim() && activeSession`: the input is not blank and the active id names a chat |
| Send.SendSpec | src/App.js:230-377 | the store after one `handleSend`: unchanged when the guard stops it, otherwise the `try` block on the sessions with the user message appended; `SendEffect` states what it changes |
| Send.Deliver | src/App.js:251-373 | the `try`/`catch` by outcome: the error message alone when refused; the reply and the rename when the stream ends; the partial reply and the error message when a read throws; `DeliverExtends` states it |
| Send.NewTitle | src/App.js:344-352 | the title a send sets: the input's first 30 characters exactly when the stream ended normally, the old title starts with "New" and the input is not blank |
| Send.RenameAgain | src/App.js:344-352 | a title an earlier rename took from an input starting with "New" qualifies again, so the next finished send with a non-blank input renames the chat once more |
| Send.Replies | src/App.js:282-373 | one call leaves one or two assistant messages with consecutive fresh ids: the reply alone when the stream ends, the partial reply and then the error message when a read throws, and the error message alone when the request is refused |
| Send.IdsDrawn | src/App.js:230-377 | a send draws no id when the guard stops it and two or three otherwise |
| Send.DeliverExtends | src/App.js:251-373 | the `try` block only appends the replies to the active chat and renames it exactly when the stream ends and the old title qualifies |
| Send.SendEffect | src/App.js:230-377 | blank input or no active chat changes nothing; otherwise only the active chat changes, getting the untrimmed user message and then the replies, and its title becomes the first 30 characters of the input exactly when a finished stream meets a title starting with "New" and a non-blank input |
| Send.NoActiveNoSend | src/App.js:231 | a `handleSend` whose render had no active chat returns at its guard, whatever its input: nothing changes and no id is drawn |
| Send.SendToNewChat | src/App.js:193-244 | a send into a new chat in front of older ones passes the guard exactly when the input is not blank, and then only the new chat changes, getting the user message and the replies |
| Send.StreamedReplies | src/App.js:302-373 | the reply of a streamed send is the concatenation of the tokens before the first `[DONE]` and the first failing read; the error message follows it exactly when a read throws before any `[DONE]` |
| Send.SendKeepsInvariant | src/App.js:230-377 | a send keeps every id below the advanced counter and keeps the active chat |
| Send.DeliverKeepsInvariant | src/App.js:251-373 | once the user message has a fresh id, the `try` block keeps every id below the counter advanced past the replies and keeps the active chat |
| App.RenameKeepsInvariant | src/App.js:226-228 | renaming keeps ids and sessions, so it keeps the store's invariant |
| App.ChatApp.Mount | src/App.js:138-159 | the initial state of lines 17-20, then the load effect: a stored snapshot becomes the backfilled sessions with its first session active, and no snapshot leaves an empty store; the invariant holds |
| App.ChatApp.Type | src/App.js:883-884 | typing sets the message box and changes nothing else |
| App.ChatApp.CreateNewChat | src/App.js:178-190 | an empty "New Conversation" with a fresh id is prepended before the unchanged sessions and made active, and the box is cleared |
| App.ChatApp.HandleSuggestion | src/App.js:193-203 | a chat titled by the suggestion, at most 30 characters, with a fresh id is prepended and made active, and the box holds the text |
| App.ChatApp.SuggestionClick | src/App.js:193-209 | a suggestion click as written: the new chat is prepended and made active with the text in the box, and the delayed send of the button's render, which had no active chat, sends nothing, so the new chat stays empty |
| App.ChatApp.SuggestionSend | src/App.js:193-209 | a suggestion click as intended: the chat is created and then the text is sent in it, ending in `SendSpec` of the new chat with the ids `IdsDrawn` counts; the box is cleared and `loading` is false exactly when the text is not blank |
| App.ChatApp.DeleteChat | src/App.js:212-218 | the sessions with the id go and the rest keep their order; the active chat becomes the first one left when it was deleted, null when none is left, and otherwise stays |
| App.ChatApp.RenameChat | src/App.js:226-228 | the sessions with the id get the title and nothing else changes |
| App.ChatApp.CommitRename | src/App.js:445-454 | the inline editor's Enter or blur renames to the trimmed text or "Untitled", so the renamed chat's title is never empty |
| App.ChatApp.Duplicate | src/App.js:525-542 | the copy is prepended before the unchanged sessions with ids no session had, the counter advances past them, and the active chat stays |
| App.ChatApp.HandleSend | src/App.js:230-377 | the send ends in exactly the state `SendSpec` gives, draws the ids `IdsDrawn` counts, leaves the box empty and `loading` false when the guard lets it through and changes neither otherwise, and keeps the invariant |
| App.ChatApp.Submit | src/App.js:233-251 | the user message takes the next id and the box is cleared; the `try` block then runs on the sessions holding it; `loading` is cleared at the end, as in the `finally` block at lines 374-376 |
| App.ChatApp.Respond | src/App.js:251-373 | the request's outcome is the reader loop's result, and the sessions become `Deliver` of that outcome: the error message for a refused request; placeholder, reply and rename or error message for a streamed one |
| App.ChatApp.ReadStream | src/App.js:276-342 | the loop leaves the placeholder holding the accumulated text and ends exactly where `Drain` says, failing exactly when a read throws |
| App.ChatApp.ScanChunk | src/App.js:305-341 | the inner `for` over one chunk's lines ends where `Feed` says, with the last message holding the accumulated text |

## Left out

- I/O: `fetch` with its request body, `res.body.getReader()` and the UTF-8
  `TextDecoder` (src/App.js:260-277, 305). A response is given as data, and a
  chunk as an already decoded string. The `console.error(err)` in the
  `catch` block (src/App.js:354) writes to the console only and is left out.
- The system prompt and the request's message list (src/App.js:252-270) are
  opaque text sent to the server and do not affect the store.
- `JSON.parse` and the optional chaining on each frame (src/App.js:320-321)
  are the oracle `parse`.
- `localStorage` (src/App.js:139, 167-169): the snapshot is given already
  parsed, or as absent. A snapshot that does not parse throws in the source
  and is not modelled. Nor is one that parses to something other than an
  array of session objects: `{}` or `null` throws at `parsed.map`, and a
  `null` message throws at `m.id` (src/App.js:143-146). The typed
  `StoredSession` admits only well-shaped snapshots. Saving is the function `Chat.Save`, used only in the
  round-trip lemma.
- Id generation with `Date.now()` and `Math.random()` is replaced by the
  counter. The source's ids carry no uniqueness guarantee; the counter's
  ids are fresh by construction.
- Message ids are truthy strings in the source. The load effect's `m.id ?`
  test is modelled as "the id is present", since a stored id is never an
  empty string.
- Timing: each `setTimeout` for textarea resizing, and React's batching.
  Each update is applied at once and in order. The delayed `handleSend` of
  `handleSuggestion` (src/App.js:204-209) runs with the values of the
  render that showed the suggestion buttons. That render had no active chat
  (src/App.js:724), so the delayed call returns at its guard; see Findings.
- Interleaving within a send: `HandleSend` runs a whole send in one step. In
  the source, the handler pauses at `await fetch` (src/App.js:260) and at each
  `await reader.read()` (src/App.js:303), and other handlers can run there:
  switching or deleting a chat, renaming, or a second send through Enter
  (src/App.js:389-394), which does not look at `loading`. The model has no
  other handler run in between, so it never exercises the missing busy
  guard. It does not capture a second send appending to the chat while the
  first stream keeps overwriting whichever message is last, nor the stream
  writing into a chat that was deleted or renamed meanwhile.
- The user interface: voice input, textarea sizing, clipboard, scrolling,
  menus, confirmation dialogs and all rendering.
- `server.js`, the proxy in front of LM Studio, is not part of this model.
- Strings are sequences of Unicode scalar values. `slice(0, 30)` and
  `length` count UTF-16 code units in JavaScript, so titles with characters
  outside the Basic Multilingual Plane are cut differently.
- The `typeof activeSession.title === "string"` test (src/App.js:347) is
  always true here, because titles are strings by type.

## Findings

| source | as written | input that shows it | evidently intended | confidence | as-written member | corrected member |
|---|---|---|---|---|---|---|
| src/App.js:204-209 | the delayed `handleSend()` is the closure of the render that showed the suggestion buttons; they are shown only when there is no active chat (line 724), so its guard at line 231 returns and nothing is sent | clicking "Create an image" with no chat active: the new chat stays empty and the text stays in the box | the comment at line 205 says the delay lets `activeSession` become available, so the text was meant to be sent in the new chat | not executed; high | App.ChatApp.SuggestionClick | App.ChatApp.SuggestionSend |
