# Chat delivery engine and profile helpers

This project models two parts of a React Native school app.

The chat screen (`app/ChatScreen.jsx`) shows each message at once as a temporary message. It delivers the message over a socket when one is connected. Otherwise it queues the message in a persisted pending queue and tries an HTTP `POST` fallback. A message is also queued when the socket emit throws. The queue is replayed ("flushed") on every connect and reconnect. A server copy returned by the `POST` replaces, in place, the temporary message with its temporary id. A `newMessage` broadcast replaces, in place, the first temporary message of the same room with the same text, or is appended when there is none.

The profile editor (`app/student/ProfileEdit.jsx`) derives the file name and MIME type of an avatar upload from its URI. It decides whether to upload, and which avatar, name and email to store.

Modules:

- `JsString` (`js_string.dfy`): the JavaScript primitives the code relies on. These are `null` as `Option`, truthiness of an optional string, `||`, `String.prototype.trim` with the ECMAScript white-space set, and `startsWith`.
- `ChatState` (`chat_state.dfy`): message and queue values, and the pure updaters the handlers apply. It also holds the specification functions for `send` and `flushPending`, and the lemmas about them.
- `ChatScreen` (`chat_screen.dfy`): class `Chat`. Its fields are the displayed list, the in-memory queue (`pendingRef.current`), the stored copy of the queue, the connection flag and the draft text. The screen's handlers are methods that update these fields in place. The handlers that change the list or the queue (`Send`, `Flush`, `FlushEntry`, `OnConnect`, `OnNewMessage`) are proved against the `ChatState` functions; the others state their new fields directly.
- `ProfileEdit` (`profile_edit.dfy`): the profile editor's string work and the decision `saveProfile` makes. The decision is modelled as a value.

Transport and storage results are parameters, not effects:

- A delivery attempt is an `Attempt`. It is one of: the socket emit returned, the socket emit threw, or an HTTP `POST` that rejected or resolved with or without a message.
- `tokenReadThrows` says whether reading the stored auth token failed.
- `readThrows` says whether reading the stored queue failed.

## Model

| member | source | states |
|---|---|---|
| `JsString.Or` | app/student/ProfileEdit.jsx:130 | `a \|\| b` on optional strings is `a` when `a` is a non-empty string, and `b` otherwise |
| `JsString.Trim` | app/ChatScreen.jsx:191-192 | the trimmed text is no longer than the input; it is empty exactly when the input is all ECMAScript white space; otherwise it starts and ends with a non-space character |
| `JsString.TrimRemovesOnlySpace` | app/ChatScreen.jsx:192 | trimming removes only white space: the input is the result with white space on both sides |
| `JsString.TrimStart` | app/ChatScreen.jsx:192 | the result is the suffix of the input after its leading white space, and starts with a non-space character |
| `JsString.TrimEnd` | app/ChatScreen.jsx:192 | the result is the prefix of the input before its trailing white space, and ends with a non-space character |
| `ChatState.Reply` | app/ChatScreen.jsx:82-84 | an attempt hands back a server copy exactly when it was a `POST` that resolved with `data.message`, and the copy is that `data.message` |
| `ChatState.Delivers` | app/ChatScreen.jsx:69-86 | a flush attempt takes its entry off the queue exactly when the emit returned or the `POST` returned `data.message`; `DeliveredIds`, `FlushStep`, `FlushKeepsFailed` and `Chat.FlushEntry` state their results through it |
| `ChatState.ReplaceByTempId` | app/ChatScreen.jsx:84 | the list keeps its length; each message whose `_tempId` is `t` becomes the server copy, and every other message is unchanged |
| `ChatState.ReplaceFreshTemp` | app/ChatScreen.jsx:226 | when only the last message carries `t`, replacing by `t` swaps exactly that message |
| `ChatState.Matches` | app/ChatScreen.jsx:158 | the `findIndex` test: a truthy `_tempId`, the broadcast's room and exactly its text; `FindTemp` and `Reconcile` state their results through it |
| `ChatState.FindTemp` | app/ChatScreen.jsx:158 | `findIndex` gives -1 when no temporary message of the same room has the same text, and otherwise the first one that does |
| `ChatState.Reconcile` | app/ChatScreen.jsx:156-166 | the length is unchanged exactly when some temporary message matches; the first match is then replaced in place; otherwise the server copy is appended; no confirmed message is overwritten |
| `ChatState.ReconcileTouchesOne` | app/ChatScreen.jsx:158-163 | of any two positions at least one is unchanged, so at most one position changes |
| `ChatState.Without` | app/ChatScreen.jsx:72 | `filter(p => p.tempId !== t)` keeps exactly the entries whose id is not `t`, and never grows the queue |
| `ChatState.WithoutCounts` | app/ChatScreen.jsx:85 | each kept entry keeps its multiplicity; entries with id `t` are all gone |
| `ChatState.WithoutConcat` | app/ChatScreen.jsx:228 | filtering works piecewise over a concatenation, so kept entries stay in order |
| `ChatState.WithoutAbsent` | app/ChatScreen.jsx:228 | filtering out an id no entry carries leaves the queue as it was |
| `ChatState.Retained` | app/ChatScreen.jsx:72 | reference definition: the result holds exactly the entries whose id is not in the given set |
| `ChatState.WithoutRetained` | app/ChatScreen.jsx:72 | filtering one more id after a set of ids is the same as filtering the set with that id added |
| `ChatState.WithoutIsRetained` | app/ChatScreen.jsx:85 | filtering one id is retention against the singleton set |
| `ChatState.RetainedNone` | app/ChatScreen.jsx:65 | retaining against the empty set keeps the whole queue |
| `ChatState.TempMessage` | app/ChatScreen.jsx:196-205 | the temporary message carries the temporary id, no server id, the trimmed text and room, and `"sending"` when the screen shows itself connected, else `"pending"` |
| `ChatState.SentMessages` | app/ChatScreen.jsx:207-226 | a non-empty send grows the list by exactly one message and keeps the timeline; the last message is the server copy when the token was read and the `POST` returned one, else the temporary message |
| `ChatState.SendAppendsOne` | app/ChatScreen.jsx:207-226 | with a new temporary id, a send appends exactly one message at the end and leaves the rest of the list unchanged; that message is the server copy when the `POST` returned one, else the temporary message |
| `ChatState.SendDelivers` | app/ChatScreen.jsx:212-230 | a send delivers at once when the emit returns, or when the token is read and the `POST` returns the server copy; `SentQueue` and `SentQueueFixed` state their results through it |
| `ChatState.SentQueue` | app/ChatScreen.jsx:211-239 | as written: the queue gains nothing but the entry, and only when the send did not deliver; then the old queue is kept as a prefix and the entry ends the queue |
| `ChatState.SentQueueFixed` | app/ChatScreen.jsx:211-239 | corrected: the queue gains nothing but the entry, and when the send did not deliver it is the old queue with the entry appended once |
| `ChatState.SendQueueOutcome` | app/ChatScreen.jsx:211-239 | with a new temporary id, a send that delivers leaves the corrected queue as it was and any other send appends the entry once, a failed token read included; the as-written queue agrees except on a failed token read of the HTTP path |
| `ChatState.SendTokenFailureDuplicates` | app/ChatScreen.jsx:217-238 | as written, a failed token read on the HTTP path gives exactly the old queue followed by the entry twice, so ids are no longer unique |
| `ChatState.SendFixedKeepsIdsUnique` | app/ChatScreen.jsx:215-239 | with the entry queued once on every non-delivering path, a queue with unique ids keeps them unique after a send with a fresh id |
| `ChatState.DeliveredIds` | app/ChatScreen.jsx:66-93 | every id a flush takes off the queue is the id of some snapshot entry; `DeliveredIdsMembers` gives both directions |
| `ChatState.DeliveredIdsMembers` | app/ChatScreen.jsx:66-93 | an id is taken off the queue by a flush exactly when some snapshot entry with that id had an attempt that delivers |
| `ChatState.FlushedMessages` | app/ChatScreen.jsx:84 | a flush never changes the length of the list, and only temporary messages are swapped |
| `ChatState.FlushKeepsUnreplied` | app/ChatScreen.jsx:66-93 | over a whole flush, a message stays in place unless it is the temporary message of an entry whose `POST` returned a server copy; a failed entry's message stays visible |
| `ChatState.FlushShowsReply` | app/ChatScreen.jsx:82-84 | over a whole flush, the temporary message of the first replied entry with its id becomes that entry's server copy, in place, when the copy carries no temporary id |
| `ChatState.FlushStep` | app/ChatScreen.jsx:66-93 | one more loop turn adds the entry's id to the delivered ids exactly when its attempt delivers, and replaces its temporary message exactly when its `POST` returned a message |
| `ChatState.FlushAllDelivered` | app/ChatScreen.jsx:66-93 | when every attempt delivers, the flush empties the queue it replayed |
| `ChatState.RetainedAll` | app/ChatScreen.jsx:72-85 | retaining none of the ids a queue carries leaves it empty |
| `ChatState.FlushKeepsFailed` | app/ChatScreen.jsx:89-92 | an entry whose attempt threw or returned nothing stays queued, provided no delivered entry shares its id |
| `ChatScreen.Chat.constructor` | app/ChatScreen.jsx:25-34 | a mounted screen starts with an empty list, an empty queue, disconnected, and an empty draft, over whatever the store holds |
| `ChatScreen.Chat.LoadPending` | app/ChatScreen.jsx:37-45 | the queue becomes the stored list; if nothing is stored, or the read or parse fails, it becomes empty |
| `ChatScreen.Chat.SavePending` | app/ChatScreen.jsx:47-53 | the stored copy becomes the in-memory queue |
| `ChatScreen.Chat.AddPending` | app/ChatScreen.jsx:55-59 | the entry is appended to the queue, and the stored copy mirrors the queue |
| `ChatScreen.Chat.Type` | app/ChatScreen.jsx:288-290 | the draft becomes the typed text |
| `ChatScreen.Chat.LoadHistory` | app/ChatScreen.jsx:110-119 | a fetched message list replaces the displayed list; a failed fetch leaves it |
| `ChatScreen.Chat.Send` | app/ChatScreen.jsx:190-240 | a draft that trims to nothing changes nothing; otherwise the draft is cleared, the list and queue become `SentMessages` and `SentQueueFixed` (the entry is queued once; see Findings), the store is written on every path except a returned emit, a stored copy that mirrored the queue still mirrors it, and the timeline is kept |
| `ChatScreen.Chat.Flush` | app/ChatScreen.jsx:61-94 | an empty queue or a failed token read changes nothing; otherwise the queue becomes the snapshot minus the delivered ids, the list becomes `FlushedMessages`, and the store mirrors the queue once anything was delivered; a stored copy that mirrored the queue still mirrors it |
| `ChatScreen.Chat.FlushTurn` | app/ChatScreen.jsx:66-93 | one loop turn moves the loop's account of the state from `i` replayed entries to `i + 1` |
| `ChatScreen.Chat.FlushEntry` | app/ChatScreen.jsx:67-92 | a delivering attempt filters its id out of the queue and saves it; a returned message replaces the temporary message; a failing attempt changes nothing |
| `ChatScreen.Chat.OnConnect` | app/ChatScreen.jsx:130-148 | the screen shows itself connected, then the queue is flushed as `Flush` states, keeping a mirrored stored copy mirrored |
| `ChatScreen.Chat.OnDisconnect` | app/ChatScreen.jsx:138-141 | the screen shows itself disconnected; the queue is kept |
| `ChatScreen.Chat.OnNewMessage` | app/ChatScreen.jsx:154-167 | the list becomes `Reconcile` of the old list and the broadcast, keeping the timeline |
| `ProfileEdit.FileName` | app/student/ProfileEdit.jsx:99 | `split("/").pop()` is the suffix after the last `/`; it contains no `/` |
| `ProfileEdit.FileNameOfPath` | app/student/ProfileEdit.jsx:99 | the file name of `dir/name` is `name` when `name` has no `/` |
| `ProfileEdit.WordRun` | app/student/ProfileEdit.jsx:100 | the result is the longest run of `\w` characters ending the string |
| `ProfileEdit.DotEndsWordRun` | app/student/ProfileEdit.jsx:100 | a `.` followed only by `\w` characters marks where the final word run starts |
| `ProfileEdit.Extension` | app/student/ProfileEdit.jsx:100 | `/\.(\w+)$/` matches exactly when some `.` is followed by one or more `\w` characters up to the end; the capture is those characters |
| `ProfileEdit.ExtensionAbsent` | app/student/ProfileEdit.jsx:100 | when the final word run is not preceded by a `.`, no `.` is followed by word characters only |
| `ProfileEdit.MimeType` | app/student/ProfileEdit.jsx:101 | the type is `image/` plus the capture when there is one, else `image` |
| `ProfileEdit.MimeTypeOfPath` | app/student/ProfileEdit.jsx:99-101 | `dir/base.ext` with a word-character `ext` uploads as file `base.ext` of type `image/ext` |
| `ProfileEdit.MimeTypeNoExtension` | app/student/ProfileEdit.jsx:100-101 | a name whose last `.` is followed by a non-word character, or by nothing, uploads as plain `image` |
| `ProfileEdit.AvatarUpload` | app/student/ProfileEdit.jsx:97-102 | the form carries the local URI, its file name and that name's MIME type |
| `ProfileEdit.UploadedUrl` | app/student/ProfileEdit.jsx:104-112 | the upload yields a URL exactly when it resolved with a non-empty `avatarUrl`, else `null` |
| `ProfileEdit.IsLocalUri` | app/student/ProfileEdit.jsx:125 | an upload is attempted exactly for a non-empty avatar URI starting with `file://` or `content://`; `SaveProfile` states its upload through it |
| `ProfileEdit.SaveProfile` | app/student/ProfileEdit.jsx:115-134 | a blank trimmed name or email refuses the save; otherwise name and email are stored as typed; an upload happens exactly for a `file://` or `content://` avatar; the stored avatar is the uploaded URL, else the current avatar, else none |
| `ProfileEdit.SaveIgnoresUploadForRemoteAvatar` | app/student/ProfileEdit.jsx:125-130 | for an avatar that is not local, the upload outcome cannot change what is saved |
| `ProfileEdit.FailedUploadKeepsLocalAvatar` | app/student/ProfileEdit.jsx:126-130 | a failed upload of a local avatar stores the local URI |

## Left out

- Storage writes (`AsyncStorage.setItem`) are modelled as always succeeding. `savePending` swallows its own errors, so a failed write would only leave the stored copy stale. `saveProfile` writes are not modelled as effects at all: `SaveProfile` returns what would be written.
- JSON encoding is not modelled. A stored queue is `Missing` (absent or empty string), `Garbled` (parse throws) or `Saved(entries)`. A stored value that parses to something other than a list is not modelled.
- The socket, axios and the server are replaced by the `Attempt` and `UploadReply` parameters, and `LoadHistory`'s reply is a parameter. Which transport `send` and the flush loop pick depends on the live socket state, and that choice is part of each `Attempt`. `joinRoom`, `leaveRoom`, `connect_error`, the socket options and scrolling are not modelled.
- Concurrency is not modelled. Each handler runs to completion, and a flush and a send never interleave at their `await` points. The flush snapshot (line 65) is still modelled: removals go to the live queue, and attempts follow the snapshot.
- `tempId` and `createdAt` come from `Date.now()`, `Math.random()` and `new Date()`; they are parameters of `Send`.
- The `mounted` flag, the loading spinner, the `roomId` guard in `init` and everything that renders are not modelled.
- `ChatState.FlushShowsReply`: assumes the server copy carries no `_tempId`. A copy that did could be swapped again by a later entry with that id, and the lemma does not cover that case.
- `ChatScreen.Chat.Flush`: does not restate `KeepsTimeline` in its own contract. That property follows from `FlushedMessages`, whose contract states it.
- A stored token that is `null` still leads to a `POST`; what the server does with it is part of the `Attempt`.
- `ChatScreen.Chat.Send`: queues the entry once when the token read fails, where the code queues it twice. `ChatState.SentQueue` keeps the code as written and is the subject of the Findings row.
- Other screens and files of the app are not part of this model.

## Findings

| source | as written | input that shows it | evidently intended | confidence | as-written member | corrected member |
|---|---|---|---|---|---|---|
| app/ChatScreen.jsx:217-238 | on the HTTP path, `addPending` runs before the token read; if that read throws, the outer `catch` runs `addPending` again with the same entry | offline send of "hi" while `AsyncStorage.getItem("auth_token")` rejects: the queue holds the entry twice, and a later flush posts the message twice | the entry is queued once, so at most one queue entry per temporary id | not executed | `ChatState.SendTokenFailureDuplicates` (on `ChatState.SentQueue`) | `ChatState.SendFixedKeepsIdsUnique` (on `ChatState.SentQueueFixed`) |
