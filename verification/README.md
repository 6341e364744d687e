# AmazonChimeSimple meeting screen, modelled in Dafny

This project models the meeting screen of AmazonChimeSimple, an Android app
built on the Amazon Chime SDK. Its core is the video-tile coordinator,
`MeetingFragment` with its `MeetingModel`. The coordinator keeps these tiles:

- the local camera tile;
- the remote attendees' tiles, in display order;
- the content-share tiles.

It shows the video grid four slots per page. The local tile takes one slot
of every page. After each change it recomputes the page, steps back while
the page shows no remote tile, and pauses or resumes every remote tile by
whether the page shows it, the user paused it, and the engine holds it
paused. The model also covers:

- the two demo video filters and the capture source they select;
- the join/leave request helpers: URL, request body, reading the response,
  and status to result;
- the blank-response guard before a session configuration is built;
- the random attendee-name generator.

Every callback and button handler is a pure function. It takes an immutable
`Coordinator.Session` and returns a `Step`: the next session plus the engine
calls made, in order. The engine calls are the `Engine.Command` values.
`Coordinator.Handle` applies one event, and `Coordinator.Run` applies a sequence of them.
Modules follow the source:

- `Tiles`: video tile states and the tile list.
- `Pagination` and `ActiveSpeakers`: `MeetingModel`.
- `Capture` and `Coordinator`: `MeetingFragment`.
- `Requests`: `MainActivity` and `MakeRequest`.
- `RandomNames`: `RandomGenarator`.

Behaviour of the code worth knowing:

- **The local tile is on every page.** It is prepended to every page. With a local tile and five remote tiles, page 1 shows the
  local tile and remote tiles 4 and 5 (`Coordinator.LocalPlusFiveRemotes`).
- **A filter toggle restarts local video without removing the old sink.**
  When a filter is toggled while local video runs, local video is started
  again through the new source. The old filter sink is not removed and
  local video is not stopped first.
- **`endMeeting` unbinds the constant id 0 for the local tile**, not the
  local tile's own id. It also stops remote video twice.
- **Content tiles are de-duplicated only against the screen tiles.** A
  content tile already there falls through to the local/remote tests and
  can be appended again (`Coordinator.ContentTileAddedTwice`).
- **The pause/resume batch is issued once per nesting level.** Page
  revalidation re-enters the page update, so the batch goes out once per
  level, always for the final page.

## Model

| member | source | states |
|---|---|---|
| Pagination.RemoteCapacity | app/src/main/java/com/example/amazonchimesimple/model/MeetingModel.kt:54 | a page holds four tiles; the local tile, when present, takes one of them, leaving 3 remote slots with a local tile and 4 without |
| Pagination.ComputePage | app/src/main/java/com/example/amazonchimesimple/model/MeetingModel.kt:47-60 | a page never holds more than four tiles, and the local tile, when present, comes first |
| Pagination.PageLayout | app/src/main/java/com/example/amazonchimesimple/model/MeetingModel.kt:47-60 | after the local tile, a page is the remote window of its index: four wide without a local tile, three with one |
| Pagination.WindowIsSlice | app/src/main/java/com/example/amazonchimesimple/model/MeetingModel.kt:55-59 | the window of page p is the contiguous slice of the remote list starting at p times capacity, clipped to the list; it is non-empty exactly when that start lies inside the list, and only holds tiles of the list |
| Pagination.RemoteCountIsWindowLength | app/src/main/java/com/example/amazonchimesimple/model/MeetingModel.kt:76-78 | when only the local tile is flagged local, the remote count of a page is the length of its remote window |
| Pagination.CanGoToNextVideoPage | app/src/main/java/com/example/amazonchimesimple/model/MeetingModel.kt:84-88 | the ceiling-based last-page test holds exactly when the next page would start inside the remote list; with no remote tiles there is no next page |
| Pagination.NextPageIffNextWindowNonEmpty | app/src/main/java/com/example/amazonchimesimple/model/MeetingModel.kt:84-88 | a next page exists exactly when the next page's remote window is non-empty |
| Pagination.WindowHoldsItsIndices | app/src/main/java/com/example/amazonchimesimple/model/MeetingModel.kt:55-59 | remote tile i lies in the window of page p exactly when i / cap == p, and then sits at position i - p * cap of it |
| Pagination.RemoteWindow | app/src/main/java/com/example/amazonchimesimple/model/MeetingModel.kt:55-59 | the window never holds more than a page's remote capacity; `WindowIsSlice` and `WindowHoldsItsIndices` give its contents |
| Pagination.RemoteCountInPage | app/src/main/java/com/example/amazonchimesimple/model/MeetingModel.kt:76-78 | the count never exceeds the page length; `RemoteCountIsWindowLength` shows it is the remote window's length on a computed page |
| Pagination.PrevPageIffFullPrevWindow | app/src/main/java/com/example/amazonchimesimple/model/MeetingModel.kt:80-82 | for an index that is 0 or starts inside the remote list, `CanGoToPrevVideoPage` holds exactly when a previous page exists, and that page's remote window is then full |
| Pagination.CanGoToPrevVideoPage | app/src/main/java/com/example/amazonchimesimple/model/MeetingModel.kt:80-82 | a previous page exists exactly when the index is positive; `PrevPageIffFullPrevWindow` relates it to the previous window |
| ActiveSpeakers.ReorderByActiveSpeakers | app/src/main/java/com/example/amazonchimesimple/model/MeetingModel.kt:62-74 | the reorder is a permutation; active speakers come before everyone else; each group keeps its relative order; unique ids stay unique |
| ActiveSpeakers.SortIsStablePartition | app/src/main/java/com/example/amazonchimesimple/model/MeetingModel.kt:64-73 | the stable insertion sort under the speaker comparator equals the stable partition into speakers and then non-speakers |
| Coordinator.Instruction | app/src/main/java/com/example/amazonchimesimple/fragment/MeetingFragment.kt:436-447 | for one remote tile: resume exactly when the page contains it, it is not paused by the user, and it is held paused; pause exactly when the page does not contain it or it is user-paused, and it is not held paused; otherwise no call |
| Coordinator.InstructionsPerTile | app/src/main/java/com/example/amazonchimesimple/fragment/MeetingFragment.kt:436-447 | with unique ids, a batch holds only pause/resume calls, every tile's own decision is in it, and no two calls name one tile |
| Coordinator.Instructions | app/src/main/java/com/example/amazonchimesimple/fragment/MeetingFragment.kt:436-447 | at most one call per remote tile; `InstructionsAppend` and `InstructionsSingle` fix the calls in remote-list order, and `InstructionsPerTile` shows each tile gets exactly its own decision |
| Coordinator.InstructionsAppend | app/src/main/java/com/example/amazonchimesimple/fragment/MeetingFragment.kt:436-447 | the calls follow the remote list: the batch of two lists one after the other is the first list's batch followed by the second's |
| Coordinator.InstructionsSingle | app/src/main/java/com/example/amazonchimesimple/fragment/MeetingFragment.kt:437-446 | the batch of one tile is exactly that tile's own call, if any |
| Coordinator.Batch | app/src/main/java/com/example/amazonchimesimple/fragment/MeetingFragment.kt:436-447 | the batch a page update ends with, taken from the stored page and user-paused set; `PauseResumeDecision` states the call for each remote tile |
| Coordinator.ShownIffOnCurrentPage | app/src/main/java/com/example/amazonchimesimple/model/MeetingModel.kt:47-60 | under the session invariant the page contains remote tile i exactly when i / capacity is the current page index: the local tile at its head is never a remote tile, and remote tiles are distinct |
| Coordinator.PauseResumeDecision | app/src/main/java/com/example/amazonchimesimple/fragment/MeetingFragment.kt:419-447 | under the session invariant, remote tile i is resumed exactly when i / capacity is the current page and it is held paused and not user-paused; it is paused exactly when it is off the page or user-paused and not held paused; the batch holds only pause/resume calls, and any call naming the tile is its own resume or pause |
| Coordinator.PageUpdated | app/src/main/java/com/example/amazonchimesimple/fragment/MeetingFragment.kt:419-459 | a page update changes only the page index and page; the index only goes down, to the last page at or below it that shows a remote tile (or 0), every page skipped over shows none, the page is the computed page of that index, and the trace is that page's batch once per nesting level |
| Coordinator.Revalidate | app/src/main/java/com/example/amazonchimesimple/fragment/MeetingFragment.kt:454-459 | revalidation steps back over pages without a remote tile and stops at the first index that shows one, or at 0, keeping every other field |
| Coordinator.RevalidationSettles | app/src/main/java/com/example/amazonchimesimple/fragment/MeetingFragment.kt:454-459 | the settled index in closed form: unchanged if its page starts inside the remote list, else the last page that does, or 0 with no remote tiles |
| Coordinator.PageUpdatedIdempotent | app/src/main/java/com/example/amazonchimesimple/fragment/MeetingFragment.kt:419-434 | updating the page a second time leaves the session as the first update left it and only repeats the call batch |
| Coordinator.PageUpdatedInv | app/src/main/java/com/example/amazonchimesimple/fragment/MeetingFragment.kt:419-459 | from any session whose tiles are well kept, a page update establishes the invariant: stored page equals computed page, and the index is 0 or shows a remote tile |
| Coordinator.ShowVideoTile | app/src/main/java/com/example/amazonchimesimple/fragment/MeetingFragment.kt:498-522 | a content tile is appended to the screen tiles and paused at once; a local tile replaces the local slot; any other tile is appended to the remote list; the last two are followed by a page update |
| Coordinator.VideoTileAdded | app/src/main/java/com/example/amazonchimesimple/fragment/MeetingFragment.kt:622-639 | new content is shown; a local tile is always shown; a remote tile is shown only when no remote tile has its id, so remote ids stay unique |
| Coordinator.ContentTileAddedTwice | app/src/main/java/com/example/amazonchimesimple/fragment/MeetingFragment.kt:629-636 | a content tile already among the screen tiles is appended again when it is flagged local or no remote tile has its id |
| Coordinator.VideoTileRemoved | app/src/main/java/com/example/amazonchimesimple/fragment/MeetingFragment.kt:641-662 | the view is unbound first; a content tile leaves the screen tiles only; otherwise the local slot is cleared on a local-id match, else every remote tile with the id is dropped, and the page is updated |
| Coordinator.RemovedTileIsGone | app/src/main/java/com/example/amazonchimesimple/fragment/MeetingFragment.kt:641-662 | after removal no list holds the id (screen tiles for content; local slot or remote list otherwise), and an id no list holds leaves every list unchanged |
| Coordinator.PrevVideoPage | app/src/main/java/com/example/amazonchimesimple/fragment/MeetingFragment.kt:184-189 | without a previous page nothing happens; with one, the session settles from the index one lower |
| Coordinator.NextVideoPage | app/src/main/java/com/example/amazonchimesimple/fragment/MeetingFragment.kt:192-197 | without a next page nothing happens; with one, the session settles from the index one higher |
| Coordinator.PageButtonsMoveByOne | app/src/main/java/com/example/amazonchimesimple/fragment/MeetingFragment.kt:184-197 | under the invariant the previous button moves the index down by exactly one when the index is positive, and the next button up by exactly one when the next page starts inside the remote list; otherwise the index stays |
| Coordinator.ActiveSpeakerDetected | app/src/main/java/com/example/amazonchimesimple/fragment/MeetingFragment.kt:243-250 | the remote tiles are reordered speakers-first (same multiset) and the page is updated from the reordered list |
| Coordinator.ActiveSpeakerKeepsPageIndex | app/src/main/java/com/example/amazonchimesimple/fragment/MeetingFragment.kt:243-250 | under the invariant an active-speaker reorder never changes the page index |
| Coordinator.ToggleMute | app/src/main/java/com/example/amazonchimesimple/fragment/MeetingFragment.kt:262-271 | the mute flag flips and nothing else changes; exactly one call, mute when the new flag is set and unmute otherwise |
| Coordinator.ToggleVideo | app/src/main/java/com/example/amazonchimesimple/fragment/MeetingFragment.kt:291-298 | the camera flag flips and afterwards agrees with whether local video runs; only the started flag of the capture state changes; filter exclusivity is kept; the calls are exactly those of stopping local video when the camera was on, and of starting it otherwise |
| Coordinator.ToggleDemoFilter | app/src/main/java/com/example/amazonchimesimple/fragment/MeetingFragment.kt:333-389 | a filter toggle changes only the capture flags, and keeps the CPU and GPU filters exclusive |
| Coordinator.EndMeeting | app/src/main/java/com/example/amazonchimesimple/fragment/MeetingFragment.kt:736-750 | unbinds id 0 when a local tile exists, then every remote and every screen tile in order, then stops local video, remote video twice and the session; the session record is unchanged |
| Coordinator.EndMeetingUnbindsTiles | app/src/main/java/com/example/amazonchimesimple/fragment/MeetingFragment.kt:736-750 | every remote and screen tile id is unbound, and every unbind call names id 0 or a remote or screen tile |
| Coordinator.AudioSessionStopped | app/src/main/java/com/example/amazonchimesimple/fragment/MeetingFragment.kt:558-571 | the meeting is ended unless the status is OK, and leaving is reported last in either case |
| Coordinator.PauseStateChanged | app/src/main/java/com/example/amazonchimesimple/fragment/MeetingFragment.kt:436-447 | an engine pause-state change is applied to every list holding the tile: the local slot, the remote list, the screen tiles and the current page all become the same list with that tile's state changed, as the lists share the engine's state object; nothing is called and no other field changes |
| Coordinator.UserPauseChanged | app/src/main/java/com/example/amazonchimesimple/fragment/MeetingFragment.kt:201-208 | the video adapter's write to the user-paused set: the id is in the set exactly when the user paused it, every other id keeps its membership, and nothing else changes |
| Coordinator.PauseStateChangedInv | app/src/main/java/com/example/amazonchimesimple/fragment/MeetingFragment.kt:436-447 | a pause-state change keeps the session invariant: the stored page changes exactly as the computed page does |
| Coordinator.PauseChangeDecidesNextBatch | app/src/main/java/com/example/amazonchimesimple/fragment/MeetingFragment.kt:436-447 | after the engine sets a remote tile's pause state, the next batch resumes it exactly when it is on the current page, not user-paused, and now held paused; it pauses it exactly when it is off the page or user-paused and no longer held paused |
| Coordinator.UserPausedTileIsPaused | app/src/main/java/com/example/amazonchimesimple/fragment/MeetingFragment.kt:438-445 | once the user pauses a remote tile, the next batch pauses it exactly when the engine does not already hold it paused, even on the current page, and never resumes it |
| Pagination.PageOfPauseChange | app/src/main/java/com/example/amazonchimesimple/model/MeetingModel.kt:47-60 | the page computed after a pause-state change is the old page with the same change |
| Coordinator.HandlePreservesInv | app/src/main/java/com/example/amazonchimesimple/fragment/MeetingFragment.kt:419-459 | every callback, button, engine pause-state change and user pause keeps the session invariant: unique remote ids, exclusive filters, the stored page is the computed one, and the index is 0 or shows a remote tile |
| Coordinator.ReachableInv | app/src/main/java/com/example/amazonchimesimple/fragment/MeetingFragment.kt:622-662 | in every session reachable from a fresh meeting, remote ids are unique, the filters are exclusive and the invariant holds |
| Coordinator.Initial | app/src/main/java/com/example/amazonchimesimple/model/MeetingModel.kt:25-45 | a fresh meeting holds no tile and no user pause, and already satisfies the session invariant |
| Coordinator.Handle | app/src/main/java/com/example/amazonchimesimple/fragment/MeetingFragment.kt:163-197 | each button and engine callback is routed to its handler; `HandlePreservesInv` shows every event keeps the invariant |
| Coordinator.LocalPlusFiveRemotes | app/src/main/java/com/example/amazonchimesimple/model/MeetingModel.kt:47-60 | with a local tile and five remote tiles, page 0 shows local plus remotes 1-3; next moves to page 1 showing local plus remotes 4-5; next there does nothing |
| Capture.SelectedSource | app/src/main/java/com/example/amazonchimesimple/fragment/MeetingFragment.kt:391-408 | the GPU filter wins over the CPU filter, which wins over the bare camera; without the app's camera source the engine's default is used; each source is chosen exactly under its condition |
| Capture.StartLocal | app/src/main/java/com/example/amazonchimesimple/fragment/MeetingFragment.kt:391-408 | local video is marked started; the calls are exactly: the filter added as a sink when one is selected, then one start call from the selected source, then the camera capture start when the camera source is in use |
| Capture.StopLocal | app/src/main/java/com/example/amazonchimesimple/fragment/MeetingFragment.kt:410-417 | local video is marked stopped; the calls are exactly one camera stop when the camera source is in use, then one engine stop |
| Capture.ToggleFilter | app/src/main/java/com/example/amazonchimesimple/fragment/MeetingFragment.kt:333-389 | refused with a notice and no change without the camera source or while the other filter is on; otherwise the filter flips and, when local video was running, the calls are exactly those of starting it through the new source, with no stop and no sink removed; exclusivity is kept |
| Capture.ToggleFilterTwice | app/src/main/java/com/example/amazonchimesimple/fragment/MeetingFragment.kt:333-360 | toggling a filter twice restores the flags |
| Capture.FilterOffAlwaysAccepted | app/src/main/java/com/example/amazonchimesimple/fragment/MeetingFragment.kt:333-389 | switching an active filter off is never refused and leaves the bare camera selected |
| Capture.StopUndoesStart | app/src/main/java/com/example/amazonchimesimple/fragment/MeetingFragment.kt:391-417 | stopping after starting gives back the flags of the stopped pipeline |
| Requests.NormaliseBase | app/src/main/java/com/example/amazonchimesimple/activity/MainActivity.kt:79 | the base URL ends with a slash, keeps the given URL as a prefix, and is unchanged exactly when it already ended with one |
| Requests.NormaliseIdempotent | app/src/main/java/com/example/amazonchimesimple/utils/MakeRequest.kt:24 | normalising twice is normalising once |
| Requests.NormaliseSameIff | app/src/main/java/com/example/amazonchimesimple/utils/MakeRequest.kt:75 | two URLs normalise alike exactly when equal or differing by one trailing slash |
| Requests.JoinUrl | app/src/main/java/com/example/amazonchimesimple/activity/MainActivity.kt:79-80 | the join URL is the base followed by `join`, with exactly one slash between them |
| Requests.LeaveUrl | app/src/main/java/com/example/amazonchimesimple/utils/MakeRequest.kt:24-25 | the leave URL is the base followed by `leave`, with exactly one slash between them |
| Requests.JoinAndLeaveShareBase | app/src/main/java/com/example/amazonchimesimple/utils/MakeRequest.kt:75-76 | join and leave URLs differ only in the final segment |
| Requests.JoinBodyRoundTrip | app/src/main/java/com/example/amazonchimesimple/activity/MainActivity.kt:81 | when neither the rendered title nor the rendered name holds a double quote, splitting the hand-built body at its quotes gives both back; the splitter is the model's own `ParseJoinBody`, not a JSON reader, and does not interpret backslashes |
| Requests.JoinBody | app/src/main/java/com/example/amazonchimesimple/activity/MainActivity.kt:81 | the body starts with the title key, and its length is the sum of its parts; `JoinBodyRoundTrip` shows the title and name can be read back when quote-free |
| Requests.MissingIdRendersAsNull | app/src/main/java/com/example/amazonchimesimple/activity/MainActivity.kt:81 | a missing meeting id is sent as the text `null`, indistinguishable from the id "null" |
| Requests.UnescapedBodyIsAmbiguous | app/src/main/java/com/example/amazonchimesimple/activity/MainActivity.kt:81 | without escaping, different (title, name) pairs can give the same body |
| Requests.LeaveBodyMap | app/src/main/java/com/example/amazonchimesimple/utils/MakeRequest.kt:33-37 | the leave body has exactly the key `title`, holding the meeting id |
| Requests.JoinBodyMap | app/src/main/java/com/example/amazonchimesimple/utils/MakeRequest.kt:84-87 | the join body has exactly the keys `title` and `name`, holding the meeting id and attendee name |
| Requests.ReadResponse | app/src/main/java/com/example/amazonchimesimple/utils/MakeRequest.kt:95-102 | reading line by line and joining without separators gives the response with every line terminator dropped and nothing else changed |
| Requests.ResultOf | app/src/main/java/com/example/amazonchimesimple/utils/MakeRequest.kt:104-114 | a result exists exactly on status 200, and is the response with terminators dropped |
| Requests.ActivityJoinMeeting | app/src/main/java/com/example/amazonchimesimple/activity/MainActivity.kt:78-115 | the URL object is built before the guarded block, so a join URL that `java.net.URL` rejects makes the exception escape; otherwise the hand-built body goes to the join URL and a result exists exactly on status 200 |
| Requests.LeaveMeeting | app/src/main/java/com/example/amazonchimesimple/utils/MakeRequest.kt:23-64 | a leave URL that `java.net.URL` rejects makes the exception escape; otherwise the map holding just the meeting id under `title` goes to the leave URL and a result exists exactly on status 200 |
| Requests.JoinMeeting | app/src/main/java/com/example/amazonchimesimple/utils/MakeRequest.kt:74-114 | a join URL that `java.net.URL` rejects makes the exception escape; otherwise the map of meeting id under `title` and attendee name under `name` goes to the join URL and a result exists exactly on status 200 |
| Requests.CreateSessionConfiguration | app/src/main/java/com/example/amazonchimesimple/activity/MainActivity.kt:238-255 | a configuration exists exactly when the response is present, not blank, and parses |
| Tiles.CreateTile | app/src/main/java/com/example/amazonchimesimple/fragment/MeetingFragment.kt:518-522 | the tile keeps the engine's state and takes the roster's display name, or the empty name for an unknown attendee |
| Tiles.RemoveIdKeepsOthers | app/src/main/java/com/example/amazonchimesimple/fragment/MeetingFragment.kt:657 | exactly the tiles with another id remain, so none with the id does; a list without the id is left as it was |
| Tiles.RemoveId | app/src/main/java/com/example/amazonchimesimple/fragment/MeetingFragment.kt:651-657 | removal never lengthens a list; `RemoveIdKeepsOthers`, `RemoveIdIsFilter` and `RemoveIdSingle` pin it down as the order-preserving filter on the id |
| Tiles.RemoveIdKeepsUnique | app/src/main/java/com/example/amazonchimesimple/fragment/MeetingFragment.kt:657 | removal keeps unique ids unique |
| Tiles.RemoveIdIsFilter | app/src/main/java/com/example/amazonchimesimple/fragment/MeetingFragment.kt:657 | removal distributes over concatenation, so the survivors keep their order, as `removeAll` keeps it |
| Tiles.RemoveIdSingle | app/src/main/java/com/example/amazonchimesimple/fragment/MeetingFragment.kt:657 | on one tile, removal keeps it exactly when its id differs; with `RemoveIdIsFilter` this pins removal down as the order-preserving filter |
| Tiles.SetPauseStateKeepsTiles | app/src/main/java/com/example/amazonchimesimple/model/MeetingModel.kt:26-28 | an engine pause-state change keeps every tile's position, id and local and content flags; only tiles with the id take the new state |
| Tiles.SetPauseState | app/src/main/java/com/example/amazonchimesimple/model/MeetingModel.kt:26-28 | the list keeps its length; `SetPauseStateKeepsTiles` shows only tiles with the id take the new state, and `PageOfPauseChange` that the page changes alike |
| RandomNames.AlphabetIsDigitsAndLowercase | app/src/main/java/com/example/amazonchimesimple/utils/RandomGenarator.kt:5 | the alphabet has 36 characters: exactly the digits and lower-case letters |
| RandomNames.RandomString | app/src/main/java/com/example/amazonchimesimple/utils/RandomGenarator.kt:7-13 | a non-negative size gives a string of that length whose i-th character is the alphabet character of the i-th draw; a negative size gives no string |
| RandomNames.RandomName | app/src/main/java/com/example/amazonchimesimple/activity/MainActivity.kt:65-71 | a generated name has the requested length and only digits and lower-case letters; size 0 gives the empty name |
| RandomNames.DefaultRandomString | app/src/main/java/com/example/amazonchimesimple/utils/RandomGenarator.kt:7 | without a size, eight characters |

`Coordinator.PageButtonsMoveByOne` states the button step under the invariant. It rests on the helper lemmas `Coordinator.PrevPageMovesByOne` and `Coordinator.NextPageMovesByOne`, which assume only the tiles' local flags and, for the previous button, that the index is 0 or its page starts inside the remote list.

## Left out

- The views and adapters are not modelled: RecyclerView adapters, DiffUtil updates, button enabling and tab switching. The model keeps only the lists they display.
- Toasts and logging are not modelled. A refusal notice is kept as an `Engine.Command` value.
- The Chime SDK is outside the model. Each engine call is a `Command` in the trace. The engine's reaction to a pause or resume call is not tied to the call. It arrives as a separate `PauseStateSet` event, which the engine may also raise on its own.
- `Coordinator.UserPauseChanged`: the video adapter that writes the user-paused set is not part of this model. The set change is modelled as the `UserPauseSet` event. Any engine calls the adapter makes with it are not modelled.
- Coroutines are not modelled, and neither is the mutex that only `onActiveSpeakerDetected` takes. Events are handled one at a time, in order. Tile additions and removals launch without the mutex in the source, so interleavings of their coroutines are not covered.
- Active-speaker scores, the audio/video observers not listed above, and the activity and fragment lifecycle are left out. So are permissions, the flashlight, voice focus, and `onVideoTilePaused`/`onVideoTileResumed`, which only show or hide a pause message and log.
- Network I/O becomes an `HttpOutcome` parameter: an exception, or a status with response text.
- Which strings `java.net.URL` accepts is library behaviour. The request helpers take it as the `accepts` parameter.
- The JSON encoding of the request maps and the JSON parse of the join response are library calls. They are modelled as the map itself and as a parsed-value parameter.
- `RandomNames.RandomString`: the random source is a sequence of draws, each below the alphabet length, with at least `size` of them.
- `Pagination.CanGoToNextVideoPage`: the floating-point ceiling is replaced by integer ceiling division, which agrees for non-negative counts.
- Tiles are compared by tile id where the source removes tiles or tests ids. The page test compares whole tiles, as `contains` does on `VideoCollectionTile`. That class is not part of this model; it is taken to be a data class, compared field by field.
- The page index is a natural number; the source only decrements it under a positive-index guard.
- `Coordinator.ShowVideoTile`, `Coordinator.VideoTileAdded`, `Coordinator.VideoTileRemoved`: the crash on content tiles is not modelled. `screenTileAdapter` is declared `lateinit` and never assigned, so every content-tile add and every content-tile removal throws when it notifies the adapter. For an add, the throw comes after the tile joins the screen list and before the pause call. The model gives the outcome the code would have with the adapter assigned.
