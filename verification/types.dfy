/** The application's domain records: questions, graded results, quiz attempts, chat messages,
    loaded documents and video recommendations. */
module Types {
  import opened Wrappers

  /** The three kinds of question, with the labels the enum carries. */
  datatype QuestionType = McqType | SaqType | LaqType {
    function Label(): string {
      match this
      case McqType => "Multiple Choice Questions"
      case SaqType => "Short Answer Questions"
      case LaqType => "Long Answer Questions"
    }
  }

  datatype McqOption = McqOption(text: string, isCorrect: bool)

  /** A quiz question: exactly one of three variants sharing `questionText` and `topic`. An MCQ
      carries an ordered list of options, with nothing requiring exactly one of them to be
      correct; the short- and long-answer variants carry the same payload. */
  datatype QuizQuestion =
    | Mcq(questionText: string, topic: string, options: seq<McqOption>, explanation: string)
    | Saq(questionText: string, topic: string, answer: string, explanation: string)
    | Laq(questionText: string, topic: string, answer: string, explanation: string)
  {
    /** The `type` discriminant. */
    function Type(): (t: QuestionType)
      ensures t == McqType <==> Mcq?
      ensures t == SaqType <==> Saq?
      ensures t == LaqType <==> Laq?
    {
      match this
      case Mcq(_, _, _, _) => McqType
      case Saq(_, _, _, _) => SaqType
      case Laq(_, _, _, _) => LaqType
    }
  }

  /** A graded answer. The score is documented as 0, 0.5 or 1, but any number is allowed. */
  datatype GradedResult = GradedResult(score: real, feedback: string)

  /** The rubric's documented score values; nothing in the record enforces them. */
  predicate IsRubricScore(x: real) {
    x == 0.0 || x == 0.5 || x == 1.0
  }

  /** One recorded quiz attempt. `id` and `date` are opaque timestamps. */
  datatype QuizAttempt = QuizAttempt(
    id: string,
    pdfName: string,
    questions: seq<QuizQuestion>,
    userAnswers: seq<string>,
    score: real,
    total: int,
    date: int,
    gradedResults: seq<GradedResult>)

  /** The alignment an attempt produced by the quiz flow has: one answer and one result per
      question, and `total` the question count. */
  predicate Aligned(a: QuizAttempt) {
    |a.userAnswers| == |a.questions| && |a.gradedResults| == |a.questions| && a.total == |a.questions|
  }

  datatype Role = User | Model

  datatype ChatMessage = ChatMessage(role: Role, text: string)

  /** The uploaded file, of which the model only needs the name and an identity. */
  datatype FileRef = FileRef(name: string, handle: nat)

  /** A loaded document. */
  datatype PdfData = PdfData(file: FileRef, name: string, text: string, totalPages: nat)

  /** A video suggestion as the generation call proposes it. */
  datatype Recommendation = Recommendation(title: string, description: string, youtubeUrl: Option<string>)

  /** A suggestion after link verification. */
  datatype VerifiedRecommendation = VerifiedRecommendation(rec: Recommendation, isValid: bool)

  datatype GroundingSource = GroundingSource(uri: string, title: string)
}
