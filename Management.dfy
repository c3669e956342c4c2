/**
 * The `quizManagement` object: the quiz store with its `localStorage`
 * copy, the set of quizzes shown since the last seek, the quiz overlay,
 * grading, and the handlers the video element and the forms call.
 *
 * The browser is reduced to state: `paused` for the video element,
 * `overlayVisible`, `questionText`, `answerOptions`, `feedbackText` and
 * `feedbackColor` for the overlay, `sounds` for the calls made to the audio
 * manager, `pendingDismissals` for the 3000 ms timers not yet fired, and
 * `storage` for `localStorage`. Form fields, dialog answers, fresh ids and
 * the selected radio button arrive as parameters.
 */
module Management {
  import opened Wrappers
  import opened JsText
  import opened QuizStore
  import opened Presentation
  import opened Playback

  /** The `localStorage` key the quiz array is saved under. */
  const StorageKey := "videoQuizzes"

  class QuizManagement {
    var quizzes: seq<Quiz>
    var shownQuizzes: set<int>
    var currentQuiz: Option<Quiz>
    var storage: map<string, seq<Quiz>>
    var quizList: ListView

    // the video element
    var paused: bool

    // the quiz overlay; `overlayPresent` is false when the page lacks its elements
    const overlayPresent: bool
    var overlayVisible: bool
    var questionText: string
    var answerOptions: seq<RenderedOption>
    var feedbackText: string
    var feedbackColor: string
    var pendingDismissals: nat

    // the calls made to the audio manager, oldest first
    var sounds: seq<Sound>

    /**
     * The store is well-formed, ascending by time with one quiz per second,
     * and so is any copy saved under `StorageKey`; a quiz on the overlay is
     * well-formed, so its `correctAnswer` indexes its options.
     */
    ghost predicate Valid()
      reads this
    {
      StoreInvariant(quizzes) &&
      (StorageKey in storage ==> StoreInvariant(storage[StorageKey])) &&
      (currentQuiz.Some? ==> WellFormed(currentQuiz.value) && overlayPresent)
    }

    /** The overlay shows `q` afresh: its question, its options labelled A to D, no feedback yet. */
    ghost predicate Presenting(q: Quiz)
      reads this
    {
      currentQuiz == Some(q) && overlayVisible &&
      questionText == q.question &&
      |q.options| <= 26 && answerOptions == LabelOptions(q.options) &&
      feedbackText == "" && feedbackColor == ""
    }

    twostate predicate OverlayUnchanged()
      reads this
    {
      currentQuiz == old(currentQuiz) && overlayVisible == old(overlayVisible) &&
      questionText == old(questionText) && answerOptions == old(answerOptions) &&
      feedbackText == old(feedbackText) && feedbackColor == old(feedbackColor)
    }

    /**
     * The effect of `checkForQuiz(t)`: when a quiz is due at `t`, the video is
     * paused, the quiz is marked shown and, if the overlay exists, presented;
     * otherwise nothing changes.
     */
    twostate predicate CheckedForQuiz(t: int)
      reads this
    {
      quizzes == old(quizzes) &&
      match QuizDue(old(quizzes), old(shownQuizzes), t)
      case None =>
        shownQuizzes == old(shownQuizzes) && paused == old(paused) && OverlayUnchanged()
      case Some(q) =>
        paused && shownQuizzes == old(shownQuizzes) + {q.id} &&
        if overlayPresent then Presenting(q) else OverlayUnchanged()
    }

    /**
     * The effect of `submitAnswer(quiz)`: with no option selected nothing
     * changes; otherwise the feedback is written, the matching sound played
     * and one more dismissal timer scheduled.
     */
    twostate predicate Graded(quiz: Quiz, selected: Option<int>)
      reads this
      requires 0 <= quiz.correctAnswer < |quiz.options|
    {
      match selected
      case None =>
        feedbackText == old(feedbackText) && feedbackColor == old(feedbackColor) &&
        sounds == old(sounds) && pendingDismissals == old(pendingDismissals)
      case Some(answer) =>
        var f := Grade(quiz, answer);
        feedbackText == f.text && feedbackColor == f.color &&
        sounds == old(sounds) + [f.sound] && pendingDismissals == old(pendingDismissals) + 1
    }

    /** `init()` on a page with a video element: load saved quizzes, then render the list. */
    constructor (saved: map<string, seq<Quiz>>, overlayPresent: bool, videoPaused: bool)
      requires StorageKey in saved ==> StoreInvariant(saved[StorageKey])
      ensures Valid()
      ensures quizzes == (if StorageKey in saved then saved[StorageKey] else [])
      ensures storage == saved && quizList == ListViewOf(quizzes)
      ensures shownQuizzes == {} && currentQuiz == None
      ensures paused == videoPaused && this.overlayPresent == overlayPresent && !overlayVisible
      ensures questionText == "" && answerOptions == [] && feedbackText == "" && feedbackColor == ""
      ensures pendingDismissals == 0 && sounds == []
    {
      quizzes := [];
      shownQuizzes := {};
      currentQuiz := None;
      storage := saved;
      quizList := NoQuizzesYet;
      paused := videoPaused;
      this.overlayPresent := overlayPresent;
      overlayVisible := false;
      questionText := "";
      answerOptions := [];
      feedbackText := "";
      feedbackColor := "";
      pendingDismissals := 0;
      sounds := [];
      new;
      LoadQuizzes();
      RenderQuizList();
    }

    // ------------------------------------------------------------ persistence

    /** `saveQuizzes`: write the whole array under `StorageKey`. */
    method SaveQuizzes()
      requires Valid()
      modifies this`storage
      ensures Valid()
      ensures storage == old(storage)[StorageKey := quizzes]
    {
      storage := storage[StorageKey := quizzes];
    }

    /** `loadQuizzes`: replace the array by the saved one, if there is one. */
    method LoadQuizzes()
      requires Valid()
      modifies this`quizzes
      ensures Valid()
      ensures quizzes == if StorageKey in storage then storage[StorageKey] else old(quizzes)
    {
      if StorageKey in storage {
        quizzes := storage[StorageKey];
      }
    }

    /** `renderQuizList`: the list shows the store as it now is. */
    method RenderQuizList()
      requires Valid()
      modifies this`quizList
      ensures Valid()
      ensures quizList == ListViewOf(quizzes)
    {
      quizList := ListViewOf(quizzes);
    }

    // ------------------------------------------------------------ add and delete

    /**
     * `addQuiz` with the form's values: `time` is `parseInt` of the time
     * field (`None` for NaN), the question and option inputs are untrimmed,
     * `freshId` is `Date.now()`, and `confirmReplace` is the answer the
     * viewer would give to the replace dialog.
     */
    method AddQuiz(freshId: int, time: Option<int>, questionInput: string, optionInputs: seq<string>,
                   correctAnswer: int, confirmReplace: bool)
      requires Valid()
      requires |optionInputs| == OptionCount && 0 <= correctAnswer < OptionCount
      modifies this`quizzes, this`storage, this`quizList
      ensures Valid()
      ensures !InputAccepted(time, questionInput, optionInputs) ==>
        quizzes == old(quizzes) && storage == old(storage) && quizList == old(quizList)
      ensures InputAccepted(time, questionInput, optionInputs) &&
              FindByTime(old(quizzes), time.value).Some? && !confirmReplace ==>
        quizzes == old(quizzes) && storage == old(storage) && quizList == old(quizList)
      ensures InputAccepted(time, questionInput, optionInputs) &&
              (FindByTime(old(quizzes), time.value).None? || confirmReplace) ==>
        var quiz := QuizFromInput(freshId, time, questionInput, optionInputs, correctAnswer);
        quizzes == AddedStore(old(quizzes), quiz) &&
        storage == old(storage)[StorageKey := quizzes] &&
        quizList == ListViewOf(quizzes)
    {
      if time.None? || time.value < 0 {
        assert !InputAccepted(time, questionInput, optionInputs);
        return;
      }
      var t := time.value;
      var question := Trim(questionInput);
      var options := TrimOptions(optionInputs);
      if question == [] {
        assert !InputAccepted(time, questionInput, optionInputs);
        return;
      }
      if options[0] == [] || options[1] == [] || options[2] == [] || options[3] == [] {
        assert !InputAccepted(time, questionInput, optionInputs);
        return;
      }
      assert InputAccepted(time, questionInput, optionInputs);
      var existingIndex := FindIndexByTime(quizzes, t);
      if existingIndex.Some? && !confirmReplace {
        assert FindByTime(quizzes, t).Some?;
        return;
      }
      var quiz := Quiz(freshId, t, question, options, correctAnswer);
      assert quiz == QuizFromInput(freshId, time, questionInput, optionInputs, correctAnswer);
      // splice, push and sort act on the array in place; here on a local copy stored back once
      var updated := quizzes;
      if existingIndex.Some? {
        updated := RemoveAt(updated, existingIndex.value);
      }
      assert updated == WithoutTime(quizzes, t);
      updated := updated + [quiz];
      updated := SortByTime(updated);
      assert updated == AddedStore(quizzes, quiz);
      quizzes := updated;
      SaveQuizzes();
      RenderQuizList();
    }

    /** `deleteQuiz(id)`, with `confirmed` the answer to the confirmation dialog. */
    method DeleteQuiz(id: int, confirmed: bool)
      requires Valid()
      modifies this`quizzes, this`storage, this`quizList
      ensures Valid()
      ensures confirmed ==>
        quizzes == FilterOutId(old(quizzes), id) &&
        storage == old(storage)[StorageKey := quizzes] &&
        quizList == ListViewOf(quizzes)
      ensures !confirmed ==>
        quizzes == old(quizzes) && storage == old(storage) && quizList == old(quizList)
    {
      if confirmed {
        FilterOutIdKeepsInvariant(quizzes, id);
        quizzes := FilterOutId(quizzes, id);
        SaveQuizzes();
        RenderQuizList();
      }
    }

    // ------------------------------------------------------------ presentation

    /**
     * `checkForQuiz(t)`: present the quiz at second `t` unless it has been
     * shown since the last seek. The id is marked shown even when the overlay
     * is missing and nothing could be displayed.
     */
    method CheckForQuiz(t: int)
      requires Valid()
      modifies this`paused, this`shownQuizzes, this`currentQuiz, this`overlayVisible,
               this`questionText, this`answerOptions, this`feedbackText, this`feedbackColor
      ensures Valid()
      ensures CheckedForQuiz(t)
    {
      var quiz := FindByTime(quizzes, t);
      if quiz.Some? && quiz.value.id !in shownQuizzes {
        ShowQuiz(quiz.value);
        shownQuizzes := shownQuizzes + {quiz.value.id};
      }
    }

    /**
     * `showQuiz(quiz)`: the video is paused first; only then, if the overlay
     * elements exist, the question and its options are displayed and
     * `currentQuiz` is set.
     */
    method ShowQuiz(quiz: Quiz)
      requires Valid() && WellFormed(quiz)
      modifies this`paused, this`currentQuiz, this`overlayVisible,
               this`questionText, this`answerOptions, this`feedbackText, this`feedbackColor
      ensures Valid() && paused
      ensures overlayPresent ==> Presenting(quiz)
      ensures !overlayPresent ==> OverlayUnchanged()
    {
      paused := true;
      if !overlayPresent {
        return;
      }
      questionText := quiz.question;
      feedbackText := "";
      feedbackColor := "";
      var rendered := [];
      var i := 0;
      while i < |quiz.options|
        invariant 0 <= i <= |quiz.options|
        invariant rendered == LabelOptions(quiz.options[..i])
      {
        assert quiz.options[..i + 1][..i] == quiz.options[..i];
        rendered := rendered + [RenderedOption(i, Letter(i), quiz.options[i])];
        i := i + 1;
      }
      assert quiz.options[..i] == quiz.options;
      answerOptions := rendered;
      overlayVisible := true;
      currentQuiz := Some(quiz);
    }

    /** `submitAnswer(quiz)`, with `selected` the checked radio button's value, if any. */
    method SubmitAnswer(quiz: Quiz, selected: Option<int>)
      requires overlayPresent
      requires 0 <= quiz.correctAnswer < |quiz.options|
      modifies this`feedbackText, this`feedbackColor, this`sounds, this`pendingDismissals
      ensures Graded(quiz, selected)
    {
      if selected.None? {
        return;
      }
      var answerIndex := selected.value;
      if answerIndex == quiz.correctAnswer {
        feedbackText := CorrectText;
        feedbackColor := CorrectColor;
        sounds := sounds + [PlayCorrect];
      } else {
        feedbackText := IncorrectPrefix + quiz.options[quiz.correctAnswer];
        feedbackColor := IncorrectColor;
        sounds := sounds + [PlayWrong];
      }
      pendingDismissals := pendingDismissals + 1;
    }

    /** One 3000 ms timer scheduled by `submitAnswer` fires: hide the overlay and play the video. */
    method DismissTimerFired()
      requires pendingDismissals > 0
      modifies this`overlayVisible, this`paused, this`pendingDismissals
      ensures !overlayVisible && !paused
      ensures pendingDismissals == old(pendingDismissals) - 1
    {
      overlayVisible := false;
      paused := false;
      pendingDismissals := pendingDismissals - 1;
    }
  }

  /**
   * `dosomething`, the quiz form's submit handler: grade the quiz last put on
   * the overlay, every time it is called (`currentQuiz` is never cleared).
   */
  method DoSomething(m: QuizManagement, selected: Option<int>)
    requires m.Valid()
    modifies m`feedbackText, m`feedbackColor, m`sounds, m`pendingDismissals
    ensures m.Valid()
    ensures m.currentQuiz.None? ==> unchanged(m)
    ensures m.currentQuiz.Some? ==> m.Graded(m.currentQuiz.value, selected)
  {
    if m.currentQuiz.Some? {
      m.SubmitAnswer(m.currentQuiz.value, selected);
    }
  }

  /**
   * The two listeners `setupVideoListener` attaches to the video element,
   * with the `lastTime` variable their closure shares.
   */
  class VideoListener {
    var lastTime: int
    const manager: QuizManagement

    constructor (manager: QuizManagement)
      ensures this.manager == manager && lastTime == NoSecondYet
    {
      this.manager := manager;
      lastTime := NoSecondYet;
    }

    /**
     * The `timeupdate` listener, given the floored playback position: it
     * checks for a quiz only when the second differs from `lastTime`.
     */
    method OnTimeUpdate(second: int)
      requires manager.Valid()
      modifies this`lastTime, manager`paused, manager`shownQuizzes, manager`currentQuiz,
               manager`overlayVisible, manager`questionText, manager`answerOptions,
               manager`feedbackText, manager`feedbackColor
      ensures manager.Valid()
      ensures lastTime == LastSeen(old(lastTime), [second])
      ensures Ticks(old(lastTime), [second]) == [second] ==> manager.CheckedForQuiz(second)
      ensures Ticks(old(lastTime), [second]) == [] ==> unchanged(manager)
      ensures old(manager.shownQuizzes) <= manager.shownQuizzes
    {
      if second != lastTime {
        lastTime := second;
        manager.CheckForQuiz(second);
      }
    }

    /** The `seeked` listener: forget every quiz shown so far. */
    method OnSeeked()
      requires manager.Valid()
      modifies manager`shownQuizzes
      ensures manager.Valid() && manager.shownQuizzes == {}
    {
      manager.shownQuizzes := {};
    }
  }

  /**
   * After a seek, the first position update in a second other than
   * `lastTime` presents the quiz at that second again, shown before or not.
   */
  method ReplayAfterSeek(l: VideoListener, q: Quiz)
    requires l.manager.Valid() && l.manager.overlayPresent
    requires q in l.manager.quizzes && l.lastTime != q.time
    modifies l`lastTime, l.manager`paused, l.manager`shownQuizzes, l.manager`currentQuiz,
             l.manager`overlayVisible, l.manager`questionText, l.manager`answerOptions,
             l.manager`feedbackText, l.manager`feedbackColor
    ensures l.manager.Valid()
    ensures l.manager.paused && l.manager.Presenting(q)
    ensures l.manager.shownQuizzes == {q.id}
  {
    QuizDueAfterReset(l.manager.quizzes, q);
    l.OnSeeked();
    l.OnTimeUpdate(q.time);
  }

  /**
   * A seek that lands in the second the listener saw last produces no tick:
   * the shown set is cleared but the quiz at that second is not presented
   * again until playback reaches it from another second.
   */
  method SeekWithinLastSecond(l: VideoListener)
    requires l.manager.Valid()
    modifies l`lastTime, l.manager`paused, l.manager`shownQuizzes, l.manager`currentQuiz,
             l.manager`overlayVisible, l.manager`questionText, l.manager`answerOptions,
             l.manager`feedbackText, l.manager`feedbackColor
    ensures l.manager.Valid() && l.manager.shownQuizzes == {}
    ensures l.lastTime == old(l.lastTime)
    ensures l.manager.paused == old(l.manager.paused)
    ensures l.manager.currentQuiz == old(l.manager.currentQuiz)
  {
    l.OnSeeked();
    l.OnTimeUpdate(l.lastTime);
  }

  /** Saving and then loading gives back the identical ordered array. */
  method SaveThenLoad(m: QuizManagement)
    requires m.Valid()
    modifies m`storage, m`quizzes
    ensures m.Valid()
    ensures m.quizzes == old(m.quizzes)
    ensures StorageKey in m.storage && m.storage[StorageKey] == m.quizzes
  {
    m.SaveQuizzes();
    m.LoadQuizzes();
  }
}
