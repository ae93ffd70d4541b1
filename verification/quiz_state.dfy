/** The quiz player's state machine: loading a previous attempt, answering,
    moving between questions and starting over. */
module QuizState {
  import opened Wrappers

  datatype Question = Question(id: string, options: seq<string>, correctAnswer: int)

  datatype QuizData = QuizData(totalQuestions: int, questions: seq<Question>)

  /** `currentQuestion` -1 means the result screen of a previous attempt. */
  datatype State = State(
    currentQuestion: int,
    selectedAnswer: Option<int>,
    showExplanation: bool,
    score: int,
    userAnswers: map<int, int>,
    xpAwarded: int,
    isSubmitting: bool,
    isLoadingPreviousAttempt: bool)

  /** The state a player starts in: at the first question, waiting for the
      previous attempt to load. */
  function Initial(): (s: State)
    ensures s.currentQuestion == 0 && s.score == 0 && s.selectedAnswer.None?
    ensures s.userAnswers == map[] && !s.showExplanation && s.xpAwarded == 0
    ensures !s.isSubmitting && s.isLoadingPreviousAttempt
  {
    State(0, None, false, 0, map[], 0, false, true)
  }

  // ---------------------------------------------------------------------
  // Loading the previous attempt
  // ---------------------------------------------------------------------

  /** What the loader callback produced: an attempt's score, nothing, or an
      exception. */
  datatype AttemptLoad = Found(score: int) | NotFound | Failed

  /** The effect's first step: mark the state as loading. */
  function StartLoading(s: State): (r: State)
    ensures r == s.(isLoadingPreviousAttempt := true)
  {
    s.(isLoadingPreviousAttempt := true)
  }

  /** The effect's outcome: a previous attempt opens its result screen with
      its score; otherwise the quiz restarts at the first question. */
  function Loaded(s: State, load: AttemptLoad): (r: State)
    ensures !r.isLoadingPreviousAttempt && r.xpAwarded == 0
    ensures load.Found? ==> r.currentQuestion == -1 && r.score == load.score
    ensures !load.Found? ==> r.currentQuestion == 0 && r.score == 0
    ensures r.selectedAnswer == s.selectedAnswer && r.showExplanation == s.showExplanation
    ensures r.userAnswers == s.userAnswers && r.isSubmitting == s.isSubmitting
  {
    match load
    case Found(score) => s.(currentQuestion := -1, score := score, xpAwarded := 0, isLoadingPreviousAttempt := false)
    case NotFound => s.(currentQuestion := 0, score := 0, xpAwarded := 0, isLoadingPreviousAttempt := false)
    case Failed => s.(currentQuestion := 0, score := 0, xpAwarded := 0, isLoadingPreviousAttempt := false)
  }

  /** A failed load and a missing attempt end in the same state. */
  lemma FailedIsNotFound(s: State)
    ensures Loaded(s, Failed) == Loaded(s, NotFound)
  {
  }

  // ---------------------------------------------------------------------
  // Answering
  // ---------------------------------------------------------------------

  /** `quizData.questions[currentQuestion]`, undefined out of range. */
  function QuestionAt(quiz: QuizData, i: int): Option<Question> {
    if 0 <= i < |quiz.questions| then Some(quiz.questions[i]) else None
  }

  /** `selectedAnswer === question?.correctAnswer`. */
  predicate IsCorrect(s: State, quiz: QuizData) {
    s.selectedAnswer.Some? && QuestionAt(quiz, s.currentQuestion).Some?
      && s.selectedAnswer.value == QuestionAt(quiz, s.currentQuestion).value.correctAnswer
  }

  /** `handleSubmitAnswer`: with quiz data and a selection, show the
      explanation, record the answer for the current question and count it
      when correct; otherwise nothing happens. */
  function Submit(s: State, quiz: Option<QuizData>): (r: State)
    ensures quiz.None? || s.selectedAnswer.None? ==> r == s
    ensures quiz.Some? && s.selectedAnswer.Some? ==>
      && r.showExplanation
      && r.userAnswers == s.userAnswers[s.currentQuestion := s.selectedAnswer.value]
      && r.score == s.score + (if IsCorrect(s, quiz.value) then 1 else 0)
    ensures r.currentQuestion == s.currentQuestion && r.selectedAnswer == s.selectedAnswer
    ensures r.xpAwarded == s.xpAwarded && r.isSubmitting == s.isSubmitting
    ensures r.isLoadingPreviousAttempt == s.isLoadingPreviousAttempt
  {
    match quiz
    case None => s
    case Some(q) =>
      var isCorrect := IsCorrect(s, q);
      match s.selectedAnswer
      case None => s
      case Some(a) =>
        s.(showExplanation := true,
           userAnswers := s.userAnswers[s.currentQuestion := a],
           score := if isCorrect then s.score + 1 else s.score)
  }

  /** The score grows by exactly one for a correct answer and by nothing
      otherwise. */
  lemma SubmitScore(s: State, quiz: QuizData, a: int)
    requires s.selectedAnswer == Some(a)
    ensures Submit(s, Some(quiz)).score - s.score == 1 <==>
      (0 <= s.currentQuestion < |quiz.questions| && a == quiz.questions[s.currentQuestion].correctAnswer)
    ensures Submit(s, Some(quiz)).score - s.score in {0, 1}
  {
  }

  // ---------------------------------------------------------------------
  // Moving between questions
  // ---------------------------------------------------------------------

  /** `handleNextQuestion`: advance and clear the selection and explanation,
      unless this is already the last question. */
  function Next(s: State, totalQuestions: int): (r: State)
    ensures s.currentQuestion < totalQuestions - 1 ==>
      r == s.(currentQuestion := s.currentQuestion + 1, selectedAnswer := None, showExplanation := false)
    ensures s.currentQuestion >= totalQuestions - 1 ==> r == s
  {
    if s.currentQuestion < totalQuestions - 1 then
      s.(currentQuestion := s.currentQuestion + 1, selectedAnswer := None, showExplanation := false)
    else s
  }

  /** `handlePreviousQuestion`: step back and clear the selection and
      explanation, unless this is the first question. */
  function Previous(s: State): (r: State)
    ensures s.currentQuestion > 0 ==>
      r == s.(currentQuestion := s.currentQuestion - 1, selectedAnswer := None, showExplanation := false)
    ensures s.currentQuestion <= 0 ==> r == s
  {
    if s.currentQuestion > 0 then
      s.(currentQuestion := s.currentQuestion - 1, selectedAnswer := None, showExplanation := false)
    else s
  }

  /** The current question stays a real question of the quiz. */
  predicate OnQuestion(s: State, totalQuestions: int) {
    0 <= s.currentQuestion < totalQuestions
  }

  lemma MovesStayOnQuestions(s: State, totalQuestions: int)
    requires OnQuestion(s, totalQuestions)
    ensures OnQuestion(Next(s, totalQuestions), totalQuestions)
    ensures OnQuestion(Previous(s), totalQuestions)
  {
  }

  /** Moving never touches the score, the answers or the XP. */
  lemma MovesKeepResults(s: State, totalQuestions: int)
    ensures Next(s, totalQuestions).score == s.score && Previous(s).score == s.score
    ensures Next(s, totalQuestions).userAnswers == s.userAnswers && Previous(s).userAnswers == s.userAnswers
    ensures Next(s, totalQuestions).xpAwarded == s.xpAwarded && Previous(s).xpAwarded == s.xpAwarded
  {
  }

  /** Going forward and back returns to the same question with the
      selection cleared. */
  lemma NextThenPrevious(s: State, totalQuestions: int)
    requires 0 <= s.currentQuestion < totalQuestions - 1
    ensures Previous(Next(s, totalQuestions)) == s.(selectedAnswer := None, showExplanation := false)
  {
  }

  // ---------------------------------------------------------------------
  // Starting over
  // ---------------------------------------------------------------------

  /** `handleRetry`: everything back to the start, with nothing loading. */
  function Retry(s: State): (r: State)
    ensures r == Initial().(isLoadingPreviousAttempt := false)
  {
    State(0, None, false, 0, map[], 0, false, false)
  }
}
