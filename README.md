# Video quiz player: the `quizManagement` core in Dafny

The player lets an author attach multiple-choice quizzes to whole-second
positions of a video. Each quiz has four options labelled A to D. While the
video plays, the quiz for the current second is shown over the video and the
video pauses. The viewer's answer is graded with text and a sound, and after
3000 ms the overlay hides and playback resumes. Quizzes are kept in an array
that is sorted by time and has at most one quiz per second. The array is
saved in `localStorage` under `videoQuizzes`.

This project models that object (`quizManagement` in `js/script.js`) and the
`dosomething` submit handler.

- `Management.QuizManagement` is a class whose fields are the object's state:
  - the `quizzes` array, the `shownQuizzes` set, `currentQuiz`;
  - the saved copy (`storage`) and the rendered quiz list (`quizList`);
  - the video's `paused` flag and the overlay's fields;
  - the number of dismissal timers not yet fired (`pendingDismissals`);
  - the calls made to the audio manager (`sounds`).

  Each handler is a method with a field-granular `modifies` clause. Its
  `ensures` gives the whole new state in terms of the specification
  functions below. `Valid()` is the invariant every handler keeps: the store
  and its saved copy are well-formed, sorted by time and have one quiz per
  second.
- `Management.VideoListener` holds `lastTime`, the variable the
  `timeupdate` and `seeked` listeners share.
- `QuizStore` holds the pure array operations, each with its properties as lemmas:
  - `find`/`findIndex` by time;
  - `splice`, `filter` by id, and the time sort (an insertion sort);
  - the input checks of `addQuiz` and the store it produces.
- `JsText` holds `String.prototype.trim` over the ECMAScript white space and
  line terminator set.
- `Playback.Ticks` is the tick discretiser as a function of the stream of
  floored positions.
- `Presentation` holds the labelled options, the quiz due at a second,
  grading, and the list view.

The model follows the code in these points:

- The code has no state gate: a tick at another second presents a due quiz
  even while one is on screen. `CheckForQuiz` has no precondition about the
  overlay.
- After a seek, a quiz at second `t` is not always shown again.
  - The model leaves the order of events to the caller. In a browser's media
    seek, `timeupdate` is queued before `seeked`. So a seek straight into the
    second of an already-shown quiz first sets `lastTime` to that second, and
    then clears the shown set.
  - The next update in that second fires no tick, and the quiz is not
    replayed (`Management.SeekWithinLastSecond`).
  - `Management.ReplayAfterSeek` is the case of seeking elsewhere and then
    playing into the quiz's second. That update comes from another second,
    so the quiz is presented again.
- `deleteQuiz` saves and re-renders whenever the dialog is confirmed, even if
  no quiz has that id. The stored array is then unchanged
  (`QuizStore.FilterOutIdAbsent`).
- `currentQuiz` is never cleared. Every call of `dosomething` grades again,
  plays a sound again and schedules one more dismissal.
- `showQuiz` pauses the video before it checks for the overlay elements.
  `checkForQuiz` marks the quiz shown even when nothing could be displayed.

## Model

| member | source | states |
|---|---|---|
| JsText.Trim | js/script.js:154-161 | the result is empty or starts and ends with a non-white-space character; it is empty exactly when the input is all white space; it is no longer than the input |
| JsText.TrimStartSpec | js/script.js:154 | stripping the front keeps a suffix, drops only white space, and stops at a non-white-space character |
| JsText.TrimEndSpec | js/script.js:154 | stripping the back keeps a prefix, drops only white space, and stops at a non-white-space character |
| JsText.TrimRecoversCore | js/script.js:154-161 | any white space put around a trimmed string is removed again, giving back exactly that string |
| JsText.TrimIdempotent | js/script.js:154-161 | trimming twice is trimming once |
| QuizStore.FindIndexByTime | js/script.js:169 | `Some(i)`: quiz `i` is at second `t` and none before it is; `None` (`-1`): no quiz is at `t` |
| QuizStore.FindByTime | js/script.js:201 | a quiz it finds is stored and is at second `t`; it finds none exactly when no stored quiz is at `t` |
| QuizStore.FindByTimeUnique | js/script.js:201 | with one quiz per second, looking up a stored quiz's time returns that quiz |
| QuizStore.RemoveAt | js/script.js:172 | `splice(i, 1)` leaves one record fewer |
| QuizStore.RemoveAtSpec | js/script.js:172 | `splice(i, 1)` removes one copy of record `i` from the multiset and shifts later records down by one |
| QuizStore.RemoveAtOrdered | js/script.js:172 | removing one record keeps the array sorted and keeps the times distinct |
| QuizStore.RemoveAtKeepsInvariant | js/script.js:172 | after removal the store invariant holds, and the remaining quizzes are exactly those at other seconds |
| QuizStore.WithoutTime | js/script.js:169-173 | after a confirmed replacement the store keeps its invariant and holds exactly the quizzes at other seconds; its length drops by one exactly when a quiz was at that second |
| QuizStore.FilterOutId | js/script.js:194 | the kept records are exactly the stored ones whose id differs |
| QuizStore.FilterOutIdKeepsOrder | js/script.js:194 | two kept records keep their relative order |
| QuizStore.FilterOutIdConcat | js/script.js:194 | filtering a concatenation is the concatenation of the filtered parts |
| QuizStore.FilterOutIdAbsent | js/script.js:192-197 | deleting an id no quiz carries leaves the array identical |
| QuizStore.FilterOutIdIdempotent | js/script.js:192-197 | deleting the same id twice is deleting it once |
| QuizStore.FilterOutIdKeepsInvariant | js/script.js:194 | deletion keeps the store well-formed, sorted and with one quiz per second |
| QuizStore.InsertByTime | js/script.js:184 | one insertion step adds exactly the new record to the multiset |
| QuizStore.SortByTime | js/script.js:184 | the sort is a permutation of its input |
| QuizStore.InsertByTimeSorted | js/script.js:184 | inserting into a sorted array gives a sorted array |
| QuizStore.InsertByTimeUnique | js/script.js:184 | inserting a quiz at a new second into an array with distinct times keeps the times distinct |
| QuizStore.InsertByTimeAtEnd | js/script.js:184 | a quiz later than every stored one goes last |
| QuizStore.SortByTimeSorted | js/script.js:184 | the sort's output is ascending by time |
| QuizStore.SortByTimeOfSorted | js/script.js:184 | an array that is already sorted is returned unchanged |
| QuizStore.HeadIsEarliest | js/script.js:184 | in a sorted array with distinct times, the first quiz is earlier than every other quiz |
| QuizStore.SameHead | js/script.js:184 | two sorted arrays with distinct times and the same records start with the same quiz |
| QuizStore.SortedUniqueDetermined | js/script.js:184 | two such arrays with the same records are equal, so the result does not depend on which sort algorithm the browser uses |
| QuizStore.InputRejectedExactly | js/script.js:165-167 | the `InputAccepted` test fails exactly when the time is NaN or negative, the question is blank, or some option is blank (only white space) |
| QuizStore.TrimOptions | js/script.js:156-161 | the four options are trimmed in form order |
| QuizStore.QuizFromInput | js/script.js:175-181 | the created record is well-formed and carries the given id, time, trimmed question, trimmed options in order, and `correctAnswer` |
| QuizStore.AddedStore | js/script.js:169-184 | the new store keeps the invariant and contains the new quiz; it is the only quiz at its second; every other member is an old quiz at another second; the length grows by one unless a quiz was replaced |
| Playback.Ticks | js/script.js:139-145 | no more ticks than position updates |
| Playback.LastSeenAppend | js/script.js:141-142 | `lastTime` after two streams is `lastTime` after the second stream, started from where the first left it |
| Playback.TicksAppend | js/script.js:139-145 | handling two streams in sequence gives the ticks of their concatenation |
| Playback.TicksWithinOneSecond | js/script.js:140-141 | any number of updates within one second tick at most once, and not at all if that second was the last one seen |
| Playback.TicksChangeEachTime | js/script.js:141-143 | no second is checked twice in a row, and the first tick differs from the starting `lastTime` |
| Presentation.Letter | js/script.js:228 | `String.fromCharCode(65 + index)` is the index-th capital letter |
| Presentation.LabelOptions | js/script.js:223-233 | one radio button per option |
| Presentation.LabelOptionsSpec | js/script.js:223-233 | button `i` has value `i`, letter `i` and the text of option `i` |
| Presentation.LabelsOfAQuiz | js/script.js:223-233 | a stored quiz's options are labelled A, B, C, D in stored order |
| Presentation.QuizDue | js/script.js:201-202 | a due quiz is stored, is at second `t` and has not been shown; nothing is due exactly when `find` gives no quiz at `t` or gives one whose id is in the shown set |
| Presentation.QuizDueExactly | js/script.js:201-202 | with one quiz per second, nothing is due at `t` exactly when every quiz at `t` has been shown |
| Presentation.QuizDueAfterReset | js/script.js:147-149 | once the shown set is empty, every stored quiz is due at its own second |
| Presentation.QuizDueOnce | js/script.js:202-204 | after the presented quiz's id is added, nothing is due at that second |
| Presentation.Grade | js/script.js:247-255 | the correct sound plays exactly when the answer equals `correctAnswer`; otherwise the red feedback names the correct option's text |
| Presentation.WrongAnswerNamesCorrectOption | js/script.js:252-254 | wrong-answer feedback ends with the correct option's text and differs from the correct-answer text |
| Presentation.ListViewOf | js/script.js:263-281 | the placeholder appears exactly when the store is empty; otherwise there is one row per quiz, in store order, with its time, id and question |
| Presentation.ListInTimeOrder | js/script.js:272-280 | under the store invariant the rows are in strictly ascending time |
| Management.QuizManagement.constructor | js/script.js:114-122 | `init` loads the saved array if present, renders the list, and starts with no quiz shown and no current quiz |
| Management.QuizManagement.SaveQuizzes | js/script.js:283-285 | storage maps `videoQuizzes` to the current array; nothing else changes |
| Management.QuizManagement.LoadQuizzes | js/script.js:287-290 | the array becomes the saved one if present and is unchanged otherwise |
| Management.QuizManagement.RenderQuizList | js/script.js:263-281 | the list shows the current array |
| Management.QuizManagement.AddQuiz | js/script.js:152-190 | input that fails `InputAccepted` (js/script.js:165-167) leaves store, storage and list unchanged, as does a declined replacement; otherwise the store becomes `AddedStore` of the new record and is saved and rendered; the invariant is kept |
| Management.QuizManagement.DeleteQuiz | js/script.js:192-198 | if confirmed, the store becomes `FilterOutId` and is saved and rendered; otherwise nothing changes; the invariant is kept |
| Management.QuizManagement.CheckForQuiz | js/script.js:200-206 | if no quiz is due, nothing changes and the video is not paused; if one is due, the video is paused, its id is added to the shown set, and it is presented if the overlay exists |
| Management.QuizManagement.ShowQuiz | js/script.js:208-237 | the video is paused in every case; with the overlay present it shows the question, the labelled options and empty feedback, and sets `currentQuiz`; without it the overlay is untouched |
| Management.QuizManagement.SubmitAnswer | js/script.js:239-261 | with no selection nothing changes; otherwise the feedback, colour and sound are `Grade`'s, and one more dismissal is pending |
| Management.QuizManagement.DismissTimerFired | js/script.js:257-260 | a firing timer hides the overlay and resumes the video |
| Management.DoSomething | js/script.js:293-297 | grades the current quiz on every call, and does nothing when there is no current quiz |
| Management.VideoListener.constructor | js/script.js:137 | `lastTime` starts at -1 |
| Management.VideoListener.OnTimeUpdate | js/script.js:139-145 | `lastTime` becomes the second; the handler checks for a quiz exactly when `Ticks` fires, and otherwise leaves the manager unchanged; the shown set only grows |
| Management.VideoListener.OnSeeked | js/script.js:147-149 | the shown set is emptied |
| Management.ReplayAfterSeek | js/script.js:147-149 | after a seek, an update at a stored quiz's second (other than `lastTime`) presents that quiz again |
| Management.SeekWithinLastSecond | js/script.js:139-149 | a seek back into the second last seen clears the shown set but presents nothing and does not pause |
| Management.SaveThenLoad | js/script.js:283-290 | saving and then loading gives back the identical ordered array |

## Left out

- The background canvas animation (`canvasAPI.js`, `js/script.js:1-43`) is cosmetic pixel arithmetic.
- Web Audio synthesis (`onlyAudioAPI.js`, `js/script.js:45-107`) uses floating point and timing. `playCorrect` and `playWrong` are recorded as entries of `sounds`.
- DOM access is not modelled: element lookups, `innerHTML`, form reset, the list's HTML strings and the radio-button query.
  - Form values, the selected answer and the `parseInt` results are parameters. `None` stands for NaN or for no selection.
  - The list is the `ListView` value, not HTML.
- `setupFormListener` only routes the form's submit event to `addQuiz`, so it has no member of its own.
- Times and ids are modelled as unbounded integers. This misses two effects of JavaScript numbers:
  - `parseInt` of a very long digit string gives `Infinity`. `Infinity` passes the time check, and `JSON.stringify` saves it as `null`, so that save-and-load round trip does not give back the same array.
  - Times and ids above 2^53 lose precision.
- `confirm()` dialogs: the viewer's answer is a boolean parameter.
- `Date.now()` ids: the id is a parameter. Uniqueness of ids is not assumed, and deletion removes every record with the id.
- `Math.floor` of the float `currentTime`: the listener receives the floored second.
- `setTimeout`: a firing timer is the separate method `DismissTimerFired`. Timers are counted, not ordered.
- `localStorage` and JSON: storage is a map from key to array, and no JSON text is modelled.
  - A `JSON.parse` failure on corrupt saved text is not modelled.
  - Saved data that breaks the store invariant is excluded by the constructor's precondition.
- `init` on a page without the video element returns before loading anything. The constructor models only a page that has the element.
- Management.QuizManagement.AddQuiz: `correctAnswer` is assumed to be 0 to 3 (a precondition). The code reads it from radio-button values that the page markup supplies, and the page markup is not part of this model.
- Management.QuizManagement.ShowQuiz: missing overlay elements are one flag, `overlayPresent`.
  - The code checks the overlay, the question and the options container.
  - A missing feedback element would make the code throw after those checks; the model does not capture this.
- Management.QuizManagement.RenderQuizList assumes the list container exists. The code returns early without it, and only the displayed list would differ.
- Management.QuizManagement.SubmitAnswer requires the overlay to exist, which holds whenever `dosomething` calls it with the current quiz. Called directly without the overlay, the code's timer would throw.
- The `play()` promise and any rejection of it are not modelled.
- `JsText.IsJsWhitespace` lists the Unicode space separators as of Unicode 15. A future addition to category Zs is not tracked.
