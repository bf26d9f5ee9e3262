/** The quiz view's state machine: configuration, taking the quiz, and the graded result. The model
    calls are parameters: one from the page-window context to the generation reply, one from the
    grading tasks to the grading reply. */
module Quiz {
  import opened Wrappers
  import opened Strings
  import opened Json
  import opened Types
  import opened Storage
  import PageWindow
  import Gemini
  import Attempts

  datatype Phase = Config | Taking | Result

  datatype QuizState = QuizState(
    questions: seq<QuizQuestion>,
    answers: seq<string>,
    index: int,
    phase: Phase,
    score: real,
    results: seq<GradedResult>)

  /** The state the view mounts with. */
  const Initial: QuizState := QuizState([], [], 0, Config, 0.0, [])

  /** What taking a quiz keeps: one answer slot per question and the index on a question. */
  predicate Takeable(q: QuizState) {
    |q.answers| == |q.questions| && 0 <= q.index < |q.questions|
  }

  /** The generation step of `handleGenerateQuiz`, given the page window: the window must be
      acceptable and the generation must succeed; then every question gets an empty answer, the
      first question is current, the score and results are reset and the quiz is being taken. On
      any failure the state stays as it was. */
  function Start(q: QuizState, window: Result<string, PageWindow.WindowError>, t: QuestionType,
                 model: string -> Option<string>, parse: Parser): (q': QuizState)
    ensures window.Failure? ==> q' == q
    ensures window.Success? ==>
      var generated := Gemini.GenerateQuiz(model(window.value), parse, t);
      && (generated.Failure? ==> q' == q)
      && (generated.Success? ==>
            && q'.questions == generated.value
            && |q'.answers| == |q'.questions| && (forall i :: 0 <= i < |q'.answers| ==> q'.answers[i] == "")
            && q'.index == 0 && q'.score == 0.0 && q'.results == [] && q'.phase == Taking)
  {
    match window
    case Failure(_) => q
    case Success(context) =>
      match Gemini.GenerateQuiz(model(context), parse, t)
      case Failure(_) => q
      case Success(questions) =>
        QuizState(questions, seq(|questions|, _ => ""), 0, Taking, 0.0, [])
  }

  /** `handleGenerateQuiz`: the context is the page window of the document text over the page boxes
      as typed. Without document text, with an inverted range of two numbers or with too little
      text in the window, nothing changes; an acceptable window is sent to the generator. */
  function Generate(q: QuizState, text: string, totalPages: int, start: PageWindow.PageInput, end: PageWindow.PageInput,
                    t: QuestionType, model: string -> Option<string>, parse: Parser): (q': QuizState)
    ensures text == "" ==> q' == q
    ensures start.Number? && end.Number? && PageWindow.ClampedStart(start.n) > PageWindow.ClampedEnd(totalPages, end.n) ==> q' == q
    ensures text != "" && PageWindow.SelectInput(text, totalPages, start, end).Success? ==>
      var window := PageWindow.SelectInput(text, totalPages, start, end).value;
      && (Utf16Length(Trim(window)) < PageWindow.MinContextLength ==> q' == q)
      && (Utf16Length(Trim(window)) >= PageWindow.MinContextLength ==> q' == Start(q, Success(window), t, model, parse))
  {
    Start(q, PageWindow.QuizContext(text, totalPages, start, end), t, model, parse)
  }

  /** A generated quiz with at least one question is being taken. */
  lemma GenerateStartsTaking(q: QuizState, text: string, totalPages: int, start: PageWindow.PageInput, end: PageWindow.PageInput,
                             t: QuestionType, model: string -> Option<string>, parse: Parser)
    requires q.phase != Taking
    ensures var q' := Generate(q, text, totalPages, start, end, t, model, parse);
      q'.phase == Taking ==> |q'.questions| == 0 || Takeable(q')
  {
  }

  /** A reply that parses to an empty array is still a successful generation: the quiz is being
      taken with no question at all, so there is no current question to show (the view reads
      `quizQuestions[0]` regardless). */
  lemma EmptyQuizIsTaken(q: QuizState, window: string, t: QuestionType,
                         model: string -> Option<string>, parse: Parser)
    requires model(window).Some? && parse(Trim(model(window).value)) == Some(JArray([]))
    ensures var q' := Start(q, Success(window), t, model, parse);
      q'.phase == Taking && |q'.questions| == 0 && !Takeable(q')
  {
  }

  /** `newAnswers[currentQuestionIndex] = answer` on a copy: only that slot changes. Writing past the
      end lengthens the list; the skipped slots read as the empty answer. */
  function SetAnswer(answers: seq<string>, i: nat, answer: string): (r: seq<string>)
    ensures |r| == if i < |answers| then |answers| else i + 1
    ensures r[i] == answer
    ensures forall j :: 0 <= j < |answers| && j != i ==> r[j] == answers[j]
    ensures forall j :: |answers| <= j < i ==> r[j] == ""
  {
    if i < |answers| then answers[i := answer]
    else answers + seq(i - |answers|, _ => "") + [answer]
  }

  /** `handleAnswerChange`. */
  function AnswerChange(q: QuizState, answer: string): (q': QuizState)
    requires q.index >= 0
    ensures q' == q.(answers := SetAnswer(q.answers, q.index, answer))
  {
    q.(answers := SetAnswer(q.answers, q.index, answer))
  }

  /** The previous-question button: the index moves down but not below 0. */
  function Prev(q: QuizState): (q': QuizState)
    ensures q'.index == if q.index > 0 then q.index - 1 else 0
    ensures q' == q.(index := q'.index)
  {
    q.(index := PageWindow.Max(0, q.index - 1))
  }

  /** The next-question button: the index moves up but not past the last question. */
  function Next(q: QuizState): (q': QuizState)
    ensures q'.index == if q.index + 1 < |q.questions| then q.index + 1 else |q.questions| - 1
    ensures q' == q.(index := q'.index)
  {
    q.(index := PageWindow.Min(|q.questions| - 1, q.index + 1))
  }

  /** Editing answers and moving between questions keep the quiz in a takeable state, and an edit
      changes nothing but the current answer. */
  lemma TakingPreserved(q: QuizState, answer: string)
    requires Takeable(q)
    ensures Takeable(AnswerChange(q, answer)) && Takeable(Prev(q)) && Takeable(Next(q))
    ensures var a := AnswerChange(q, answer).answers;
      a[q.index] == answer && forall j :: 0 <= j < |a| && j != q.index ==> a[j] == q.answers[j]
  {
  }

  /** `results.reduce((acc, r) => acc + r.score, 0)`. */
  function TotalScore(results: seq<GradedResult>): real {
    if |results| == 0 then 0.0 else TotalScore(results[..|results| - 1]) + results[|results| - 1].score
  }

  /** Scores on the rubric add up to at least 0 and at most one point per result. */
  lemma {:induction false} TotalScoreBounds(results: seq<GradedResult>)
    requires forall i :: 0 <= i < |results| ==> IsRubricScore(results[i].score)
    ensures 0.0 <= TotalScore(results) <= |results| as real
  {
    if |results| > 0 {
      TotalScoreBounds(results[..|results| - 1]);
    }
  }

  /** The total of two runs of results is the sum of their totals. */
  lemma {:induction false} TotalScoreConcat(a: seq<GradedResult>, b: seq<GradedResult>)
    ensures TotalScore(a + b) == TotalScore(a) + TotalScore(b)
  {
    if |b| > 0 {
      var init := b[..|b| - 1];
      assert (a + b)[..|a + b| - 1] == a + init;
      TotalScoreConcat(a, init);
    } else {
      assert a + b == a;
    }
  }

  /** `handleSubmit`: grading the answers. On success the score is the total of the results and
      exactly one attempt (questions, answers, score, question count, results) is appended to the
      log; the view shows the result. On failure neither the state nor the log changes. `id` and
      `date` are the opaque timestamps of the attempt. */
  function Submit(q: QuizState, log: Attempts.AttemptLog, pdfName: string, id: string, date: int,
                  model: seq<Gemini.GradingTask> -> Option<string>, parse: Parser,
                  codec: Codec<seq<QuizAttempt>>): (out: (QuizState, Attempts.AttemptLog))
    ensures var graded := Gemini.GradeAnswers(q.questions, q.answers, model, parse);
      && (graded.Failure? ==> out == (q, log))
      && (graded.Success? ==>
            var (q', log') := out;
            && q' == q.(results := graded.value, score := TotalScore(graded.value), phase := Result)
            && log' == Attempts.Add(log, QuizAttempt(id, pdfName, q.questions, q.answers,
                                                     TotalScore(graded.value), |q.questions|, date, graded.value), codec))
  {
    match Gemini.GradeAnswers(q.questions, q.answers, model, parse)
    case Failure(_) => (q, log)
    case Success(results) =>
      var score := TotalScore(results);
      var attempt := QuizAttempt(id, pdfName, q.questions, q.answers, score, |q.questions|, date, results);
      (q.(results := results, score := score, phase := Result), Attempts.Add(log, attempt, codec))
  }

  /** A successful submission from a takeable quiz records one aligned attempt at the end of the log,
      scored with the total of its results, and keeps the earlier attempts. */
  lemma SubmitRecordsAttempt(q: QuizState, log: Attempts.AttemptLog, pdfName: string, id: string, date: int,
                             model: seq<Gemini.GradingTask> -> Option<string>, parse: Parser,
                             codec: Codec<seq<QuizAttempt>>)
    requires Takeable(q)
    requires Gemini.GradeAnswers(q.questions, q.answers, model, parse).Success?
    ensures var (q', log') := Submit(q, log, pdfName, id, date, model, parse, codec);
      && |log'.attempts| == |log.attempts| + 1
      && log'.attempts[..|log.attempts|] == log.attempts
      && Aligned(log'.attempts[|log.attempts|])
      && log'.attempts[|log.attempts|].score == q'.score == TotalScore(q'.results)
      && q'.phase == Result
  {
  }

  /** The button that starts a new quiz returns to the configuration; nothing else changes. */
  function NewQuiz(q: QuizState): (q': QuizState)
    ensures q'.phase == Config && q' == q.(phase := Config)
  {
    q.(phase := Config)
  }
}
