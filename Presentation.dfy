/**
 * What the overlay and the quiz list show: the labelled answer options of
 * `showQuiz`, the feedback and sound of `submitAnswer`, the quiz
 * `checkForQuiz` picks, and the rows of `renderQuizList`.
 */
module Presentation {
  import opened Wrappers
  import opened QuizStore

  // ---------------------------------------------------------------- showQuiz

  /** One radio button of the overlay: its value (the option index), its letter and its text. */
  datatype RenderedOption = RenderedOption(value: int, letter: char, text: string)

  /** `String.fromCharCode(65 + index)`: A for 0, B for 1, and so on. */
  function Letter(index: nat): (c: char)
    requires index < 26
    ensures 'A' <= c <= 'Z' && c as int - 'A' as int == index
  {
    (65 + index) as char
  }

  /** The radio buttons `showQuiz` appends, one per option, in array order. */
  function LabelOptions(options: seq<string>): (r: seq<RenderedOption>)
    requires |options| <= 26
    ensures |r| == |options|
  {
    if options == [] then []
    else
      var i := |options| - 1;
      LabelOptions(options[..i]) + [RenderedOption(i, Letter(i), options[i])]
  }

  /** The button at index `i` carries value `i`, the `i`-th letter and the `i`-th option's text. */
  lemma {:induction false} LabelOptionsSpec(options: seq<string>)
    requires |options| <= 26
    ensures forall i :: 0 <= i < |options| ==> LabelOptions(options)[i] == RenderedOption(i, Letter(i), options[i])
    decreases |options|
  {
    if options != [] {
      var n := |options| - 1;
      LabelOptionsSpec(options[..n]);
    }
  }

  /** A quiz's four options are shown labelled A, B, C, D, in their stored order. */
  lemma LabelsOfAQuiz(q: Quiz)
    requires WellFormed(q)
    ensures var r := LabelOptions(q.options);
      [r[0].letter, r[1].letter, r[2].letter, r[3].letter] == "ABCD" &&
      [r[0].text, r[1].text, r[2].text, r[3].text] == q.options
  {
    var r := LabelOptions(q.options);
    LabelOptionsSpec(q.options);
    assert r[0].letter == 'A' && r[1].letter == 'B' && r[2].letter == 'C' && r[3].letter == 'D';
  }

  // ---------------------------------------------------------------- checkForQuiz

  /**
   * The quiz `checkForQuiz(t)` presents: the first quiz scheduled at second
   * `t`, unless its id has been shown since the last seek.
   */
  function QuizDue(qs: seq<Quiz>, shown: set<int>, t: int): (r: Option<Quiz>)
    ensures r.Some? ==> r.value in qs && r.value.time == t && r.value.id !in shown
    ensures r.None? <==> FindByTime(qs, t).None? || FindByTime(qs, t).value.id in shown
  {
    match FindByTime(qs, t)
    case None => None
    case Some(q) => if q.id !in shown then Some(q) else None
  }

  /**
   * With one quiz per second: nothing is due at `t` exactly when every quiz
   * at `t` has already been shown.
   */
  lemma QuizDueExactly(qs: seq<Quiz>, shown: set<int>, t: int)
    requires UniqueTimes(qs)
    ensures QuizDue(qs, shown, t).None? <==> forall q :: q in qs && q.time == t ==> q.id in shown
  {
    match FindByTime(qs, t)
    case None =>
    case Some(found) =>
      forall q | q in qs && q.time == t ensures q == found {
        FindByTimeUnique(qs, q);
      }
  }

  /** Once the shown set has been cleared by a seek, every stored quiz is due again at its own second. */
  lemma QuizDueAfterReset(qs: seq<Quiz>, q: Quiz)
    requires UniqueTimes(qs) && q in qs
    ensures QuizDue(qs, {}, q.time) == Some(q)
  {
    FindByTimeUnique(qs, q);
  }

  /** Marking the presented quiz shown makes nothing due at that second any more. */
  lemma QuizDueOnce(qs: seq<Quiz>, shown: set<int>, t: int)
    requires QuizDue(qs, shown, t).Some?
    ensures QuizDue(qs, shown + {QuizDue(qs, shown, t).value.id}, t).None?
  {
  }

  // ---------------------------------------------------------------- submitAnswer

  /** The two audio cues: `audioManager.playCorrect` and `audioManager.playWrong`. */
  datatype Sound = PlayCorrect | PlayWrong

  /** What grading writes to the feedback line and which cue it plays. */
  datatype Feedback = Feedback(text: string, color: string, sound: Sound)

  const CorrectText := "\U{2713} Correct! Well done!"
  const IncorrectPrefix := "\U{2717} Incorrect. The correct answer was: "
  const CorrectColor := "lightgreen"
  const IncorrectColor := "red"

  /** `submitAnswer` once an answer is selected: compare with `correctAnswer`. */
  function Grade(quiz: Quiz, answer: int): (f: Feedback)
    requires 0 <= quiz.correctAnswer < |quiz.options|
    ensures f.sound == PlayCorrect <==> answer == quiz.correctAnswer
    ensures f.sound == PlayCorrect ==> f.text == CorrectText && f.color == CorrectColor
    ensures f.sound == PlayWrong ==> f.color == IncorrectColor && f.text == IncorrectPrefix + quiz.options[quiz.correctAnswer]
  {
    if answer == quiz.correctAnswer then Feedback(CorrectText, CorrectColor, PlayCorrect)
    else Feedback(IncorrectPrefix + quiz.options[quiz.correctAnswer], IncorrectColor, PlayWrong)
  }

  /**
   * A wrong answer's feedback ends with the text of the correct option, and
   * never reads like the feedback for a right answer.
   */
  lemma WrongAnswerNamesCorrectOption(quiz: Quiz, answer: int)
    requires 0 <= quiz.correctAnswer < |quiz.options|
    requires answer != quiz.correctAnswer
    ensures var f := Grade(quiz, answer);
      f.text[|f.text| - |quiz.options[quiz.correctAnswer]|..] == quiz.options[quiz.correctAnswer] &&
      f.text != CorrectText
  {
    var f := Grade(quiz, answer);
    assert f.text[0] == IncorrectPrefix[0] != CorrectText[0];
  }

  // ---------------------------------------------------------------- renderQuizList

  /** One row of the quiz list: the time, the delete button's id, the question. */
  datatype ListItem = ListItem(time: int, id: int, question: string)

  datatype ListView = NoQuizzesYet | Items(items: seq<ListItem>)

  /** `renderQuizList`: the placeholder for an empty store, else one row per quiz in store order. */
  function ListViewOf(qs: seq<Quiz>): (v: ListView)
    ensures v.NoQuizzesYet? <==> qs == []
    ensures v.Items? ==> |v.items| == |qs|
    ensures v.Items? ==> forall i :: 0 <= i < |qs| ==> v.items[i] == ListItem(qs[i].time, qs[i].id, qs[i].question)
  {
    if qs == [] then NoQuizzesYet
    else Items(seq(|qs|, i requires 0 <= i < |qs| => ListItem(qs[i].time, qs[i].id, qs[i].question)))
  }

  /** Under the store invariant the list rows read in strictly ascending time. */
  lemma ListInTimeOrder(qs: seq<Quiz>)
    requires StoreInvariant(qs)
    ensures var v := ListViewOf(qs);
      v.Items? ==> forall i, j :: 0 <= i < j < |v.items| ==> v.items[i].time < v.items[j].time
  {
  }
}
