/** What the application does with the model's replies: fence stripping, decoding generated
    questions stamped with the requested type, building grading tasks, validating and coercing
    grading responses, choosing the chat prompt, and reading recommendations and their grounding
    sources. The model itself is a parameter: a function from the request to its reply text, or
    `None` when the call fails. */
module Gemini {
  import opened Wrappers
  import opened Strings
  import opened Numbers
  import opened Json
  import opened Types

  // ----- Code fences -----

  const JsonFence: string := "```json"
  const Fence: string := "```"

  /** `/^```json\s*\/`: an opening fence and the white space after it. */
  function StripOpenFence(t: string): (r: string)
    ensures |r| <= |t|
  {
    if IsPrefix(JsonFence, t) then TrimStart(t[|JsonFence|..]) else t
  }

  /** `/```$/`: one closing fence at the very end. */
  function StripCloseFence(t: string): (r: string)
    ensures |r| <= |t|
  {
    if |t| >= |Fence| && t[|t| - |Fence|..] == Fence then t[..|t| - |Fence|] else t
  }

  /** The reply trimmed, then an opening `json` fence and a closing fence removed. */
  function StripFences(text: string): (r: string)
    ensures |r| <= |Trim(text)|
  {
    StripCloseFence(StripOpenFence(Trim(text)))
  }

  /** A fenced payload comes back exactly, whatever white space surrounds the fences or follows the
      opening one. */
  lemma FencedRoundTrip(text: string, ws: string, body: string)
    requires Trim(text) == JsonFence + ws + body + Fence
    requires AllWhite(ws)
    requires |body| == 0 || !IsWhite(body[0])
    ensures StripFences(text) == body
  {
    var rest := body + Fence;
    assert rest[0] == if |body| == 0 then '`' else body[0];
    assert Trim(text) == JsonFence + ws + rest;
    OpenFenceRemoved(ws, rest, Trim(text));
    CloseFenceRemoved(body);
  }

  /** A fenced reply is its own trim, so the round trip applies to it directly. */
  lemma FencedIsTrimmed(ws: string, body: string)
    ensures var t := JsonFence + ws + body + Fence; Trim(t) == t
  {
    var t := JsonFence + ws + body + Fence;
    assert t[0] == '`' && t[|t| - 1] == '`';
    TrimUnpadded(t);
  }

  lemma OpenFenceRemoved(ws: string, rest: string, t: string)
    requires AllWhite(ws)
    requires |rest| > 0 && !IsWhite(rest[0])
    requires t == JsonFence + ws + rest
    ensures StripOpenFence(t) == rest
  {
    assert t[..|JsonFence|] == JsonFence;
    assert t[|JsonFence|..] == ws + rest;
    TrimStartPastWhite(ws, rest);
  }

  lemma CloseFenceRemoved(body: string)
    ensures StripCloseFence(body + Fence) == body
  {
    var u := body + Fence;
    assert u[|u| - |Fence|..] == Fence && u[..|u| - |Fence|] == body;
  }

  /** Leading white space is all that `TrimStart` removes before a non-white character. */
  lemma {:induction false} TrimStartPastWhite(ws: string, rest: string)
    requires AllWhite(ws)
    requires |rest| > 0 && !IsWhite(rest[0])
    ensures TrimStart(ws + rest) == rest
  {
    if |ws| > 0 {
      assert (ws + rest)[1..] == ws[1..] + rest;
      TrimStartPastWhite(ws[1..], rest);
    } else {
      assert ws + rest == rest;
    }
  }

  /** Text with neither fence is only trimmed. */
  lemma UnfencedIsTrim(text: string)
    requires !IsPrefix(JsonFence, Trim(text))
    requires var t := Trim(text); !(|t| >= |Fence| && t[|t| - |Fence|..] == Fence)
    ensures StripFences(text) == Trim(text)
  {
  }

  /** An opening fence without a closing one: the body after the fence and its white space is kept,
      the trailing text untouched. */
  lemma OpenFenceOnly(text: string, ws: string, body: string)
    requires Trim(text) == JsonFence + ws + body
    requires AllWhite(ws)
    requires |body| > 0 && !IsWhite(body[0])
    requires !(|body| >= |Fence| && body[|body| - |Fence|..] == Fence)
    ensures StripFences(text) == body
  {
    OpenFenceRemoved(ws, body, Trim(text));
  }

  /** A closing fence without an opening one is removed on its own. */
  lemma CloseFenceOnly(text: string, body: string)
    requires Trim(text) == body + Fence
    requires !IsPrefix(JsonFence, body + Fence)
    ensures StripFences(text) == body
  {
    CloseFenceRemoved(body);
  }

  // ----- Generated questions -----

  /** A string property, `""` when it is missing or not a string. */
  function Text(j: Json, key: string): (r: string)
    ensures StringMember(j, key).Some? ==> r == StringMember(j, key).value
    ensures StringMember(j, key).None? ==> r == ""
  {
    StringMember(j, key).GetOr("")
  }

  /** An option as the grading step reads it: `isCorrect` by its truthiness. */
  function DecodeOption(j: Json): McqOption {
    McqOption(Text(j, "text"), match Member(j, "isCorrect") case Some(v) => Truthy(v) case None => false)
  }

  function DecodeOptions(j: Json): (r: seq<McqOption>)
    ensures j.JArray? ==> |r| == |j.items| && forall i :: 0 <= i < |r| ==> r[i] == DecodeOption(j.items[i])
    ensures !j.JArray? ==> r == []
  {
    match j
    case JArray(items) => seq(|items|, i requires 0 <= i < |items| => DecodeOption(items[i]))
    case _ => []
  }

  /** `{ ...q, type: questionType }`: a generated element read as a question of the requested type.
      Missing string fields read as `""` and missing options as none. */
  function Stamp(j: Json, t: QuestionType): (q: QuizQuestion)
    ensures q.Type() == t
    ensures q.questionText == Text(j, "questionText") && q.topic == Text(j, "topic")
    ensures q.explanation == Text(j, "explanation")
  {
    match t
    case McqType =>
      var options := match Member(j, "options") case Some(o) => DecodeOptions(o) case None => [];
      Mcq(Text(j, "questionText"), Text(j, "topic"), options, Text(j, "explanation"))
    case SaqType => Saq(Text(j, "questionText"), Text(j, "topic"), Text(j, "answer"), Text(j, "explanation"))
    case LaqType => Laq(Text(j, "questionText"), Text(j, "topic"), Text(j, "answer"), Text(j, "explanation"))
  }

  function OptionToJson(o: McqOption): Json {
    JObject(map["text" := JString(o.text), "isCorrect" := JBool(o.isCorrect)])
  }

  /** A question as the response schema lays it out. */
  function QuestionToJson(q: QuizQuestion): Json {
    match q
    case Mcq(text, topic, options, explanation) =>
      JObject(map["questionText" := JString(text), "topic" := JString(topic),
                  "options" := JArray(seq(|options|, i requires 0 <= i < |options| => OptionToJson(options[i]))),
                  "explanation" := JString(explanation)])
    case Saq(text, topic, answer, explanation) =>
      JObject(map["questionText" := JString(text), "topic" := JString(topic),
                  "answer" := JString(answer), "explanation" := JString(explanation)])
    case Laq(text, topic, answer, explanation) =>
      JObject(map["questionText" := JString(text), "topic" := JString(topic),
                  "answer" := JString(answer), "explanation" := JString(explanation)])
  }

  /** A question laid out by the schema reads back as itself once stamped with its own type. */
  lemma StampRoundTrip(q: QuizQuestion)
    ensures Stamp(QuestionToJson(q), q.Type()) == q
  {
    if q.Mcq? {
      var j := QuestionToJson(q);
      var decoded := DecodeOptions(j.fields["options"]);
      assert |decoded| == |q.options|;
      forall i | 0 <= i < |q.options| ensures decoded[i] == q.options[i] {
        var o := OptionToJson(q.options[i]);
        assert Member(o, "isCorrect") == Some(JBool(q.options[i].isCorrect));
      }
      assert decoded == q.options;
    }
  }

  const QuizError: string := "Failed to generate quiz. The model might have returned an invalid response."

  /** `generateQuiz` after the model call: the reply trimmed (no fence stripping) and parsed; anything
      but an array fails, and each element is stamped with the requested type. The number of
      questions is the number of elements, whatever count was requested. */
  function GenerateQuiz(reply: Option<string>, parse: Parser, t: QuestionType): (r: Result<seq<QuizQuestion>, string>)
    ensures r.Failure? ==> r.error == QuizError
    ensures r.Success? <==> reply.Some? && parse(Trim(reply.value)).Some? && parse(Trim(reply.value)).value.JArray?
    ensures r.Success? ==>
      var items := parse(Trim(reply.value)).value.items;
      && |r.value| == |items|
      && forall i :: 0 <= i < |items| ==> r.value[i] == Stamp(items[i], t) && r.value[i].Type() == t
  {
    if reply.None? then Failure(QuizError)
    else
      match parse(Trim(reply.value))
      case Some(JArray(items)) => Success(seq(|items|, i requires 0 <= i < |items| => Stamp(items[i], t)))
      case _ => Failure(QuizError)
  }

  /** Questions of the requested type, sent back as a schema array, are exactly what the quiz gets. */
  lemma GenerateQuizRoundTrip(qs: seq<QuizQuestion>, t: QuestionType, reply: string, parse: Parser)
    requires forall i :: 0 <= i < |qs| ==> qs[i].Type() == t
    requires parse(Trim(reply)) == Some(JArray(seq(|qs|, i requires 0 <= i < |qs| => QuestionToJson(qs[i]))))
    ensures GenerateQuiz(Some(reply), parse, t) == Success(qs)
  {
    var items := seq(|qs|, i requires 0 <= i < |qs| => QuestionToJson(qs[i]));
    var r := GenerateQuiz(Some(reply), parse, t).value;
    assert |r| == |qs|;
    forall i | 0 <= i < |qs| ensures r[i] == qs[i] {
      assert r[i] == Stamp(items[i], t);
      StampRoundTrip(qs[i]);
    }
    assert r == qs;
  }

  // ----- Grading -----

  /** The text of the first option marked correct, if any. */
  function FirstCorrect(options: seq<McqOption>): (r: Option<string>)
    ensures r.None? <==> forall i :: 0 <= i < |options| ==> !options[i].isCorrect
    ensures r.Some? ==> exists i :: 0 <= i < |options| && options[i].isCorrect && options[i].text == r.value
                                    && forall k :: 0 <= k < i ==> !options[k].isCorrect
  {
    if |options| == 0 then None
    else if options[0].isCorrect then Some(options[0].text)
    else
      var rest := FirstCorrect(options[1..]);
      assert forall i :: 1 <= i < |options| ==> options[i] == options[1..][i - 1];
      rest
  }

  /** The canonical correct answer: the first correct option of an MCQ, or the stored answer. */
  function CorrectAnswer(q: QuizQuestion): (r: Option<string>)
    ensures q.Mcq? ==> r == FirstCorrect(q.options)
    ensures !q.Mcq? ==> r == Some(q.answer)
  {
    if q.Mcq? then FirstCorrect(q.options) else Some(q.answer)
  }

  datatype GradingTask = GradingTask(questionType: QuestionType, question: string, correctAnswer: Option<string>, userAnswer: string)

  const NotAnswered: string := "Not answered"

  /** `userAnswers[i] || "Not answered"`. */
  function AnswerOrDefault(answers: seq<string>, i: nat): (r: string)
    ensures i < |answers| && answers[i] != "" ==> r == answers[i]
    ensures i >= |answers| || answers[i] == "" ==> r == NotAnswered
  {
    if i < |answers| && answers[i] != "" then answers[i] else NotAnswered
  }

  /** One grading task per question, in question order. */
  function BuildTasks(questions: seq<QuizQuestion>, answers: seq<string>): (r: seq<GradingTask>)
    ensures |r| == |questions|
    ensures forall i :: 0 <= i < |r| ==>
      && r[i].questionType == questions[i].Type()
      && r[i].question == questions[i].questionText
      && r[i].correctAnswer == CorrectAnswer(questions[i])
      && r[i].userAnswer == AnswerOrDefault(answers, i)
  {
    seq(|questions|, i requires 0 <= i < |questions| =>
      GradingTask(questions[i].Type(), questions[i].questionText, CorrectAnswer(questions[i]), AnswerOrDefault(answers, i)))
  }

  /** `parseFloat(String(v))` for a parsed value, `None` for NaN. A string is parsed; an array's
      string form starts with its first element's, cut at the comma; booleans, `null` and objects
      have no numeric prefix. */
  function NumericValue(j: Json): Option<real> {
    match j
    case JNumber(x) => Some(x)
    case JString(s) => ParseFloat(s)
    case JArray(items) => if |items| == 0 then None else NumericValue(items[0])
    case _ => None
  }

  /** The score of one grading item: 0 unless the item has a non-null `score` whose string form
      starts with a number. The value is not clamped to the rubric. */
  function CoerceScore(item: Json): (x: real)
    ensures !item.JObject? || "score" !in item.fields || item.fields["score"] == JNull ==> x == 0.0
    ensures item.JObject? && "score" in item.fields ==>
      var v := item.fields["score"];
      && (v != JNull && NumericValue(v).Some? ==> x == NumericValue(v).value)
      && (v != JNull && NumericValue(v).None? ==> x == 0.0)
  {
    match Member(item, "score")
    case Some(v) => if v == JNull then 0.0 else NumericValue(v).GetOr(0.0)
    case None => 0.0
  }

  const NoFeedback: string := "No feedback provided."

  function CoerceFeedback(item: Json): (f: string)
    ensures StringMember(item, "feedback").Some? ==> f == StringMember(item, "feedback").value
    ensures StringMember(item, "feedback").None? ==> f == NoFeedback
  {
    StringMember(item, "feedback").GetOr(NoFeedback)
  }

  function CoerceResult(item: Json): GradedResult {
    GradedResult(CoerceScore(item), CoerceFeedback(item))
  }

  function ResultToJson(g: GradedResult): Json {
    JObject(map["score" := JNumber(g.score), "feedback" := JString(g.feedback)])
  }

  /** A well-formed grading item reads back as the result it encodes, any score included. */
  lemma CoerceRoundTrip(g: GradedResult)
    ensures CoerceResult(ResultToJson(g)) == g
  {
    assert Member(ResultToJson(g), "score") == Some(JNumber(g.score));
  }

  /** A score sent as a string is read by `parseFloat`, NaN reading as 0. */
  lemma ScoreOfString(s: string, item: Json)
    requires item == JObject(map["score" := JString(s)])
    ensures CoerceScore(item) == ParseFloat(s).GetOr(0.0)
  {
    assert Member(item, "score") == Some(JString(s));
    assert NumericValue(JString(s)) == ParseFloat(s);
  }

  /** A score sent as a whole-number string is read as that number; a score with no digit is 0. */
  lemma CoerceStringScore(n: nat, s: string)
    requires NoDigits(s)
    ensures CoerceScore(JObject(map["score" := JString(NatToString(n))])) == n as real
    ensures CoerceScore(JObject(map["score" := JString(s)])) == 0.0
  {
    ScoreOfString(NatToString(n), JObject(map["score" := JString(NatToString(n))]));
    ParseFloatOfNat(n);
    ScoreOfString(s, JObject(map["score" := JString(s)]));
    ParseFloatNoDigits(s);
  }

  const GradeError: string := "Failed to grade answers. The model might have returned an invalid response."

  /** Validation of a parsed grading reply: an array with one item per question, each coerced. */
  function ValidateGrading(parsed: Option<Json>, n: nat): (r: Result<seq<GradedResult>, string>)
    ensures r.Success? <==> parsed.Some? && parsed.value.JArray? && |parsed.value.items| == n
    ensures r.Failure? ==> r.error == GradeError
    ensures r.Success? ==> |r.value| == n && forall i :: 0 <= i < n ==> r.value[i] == CoerceResult(parsed.value.items[i])
  {
    match parsed
    case Some(JArray(items)) =>
      if |items| != n then Failure(GradeError)
      else Success(seq(|items|, i requires 0 <= i < |items| => CoerceResult(items[i])))
    case _ => Failure(GradeError)
  }

  /** `gradeAnswers`: the tasks go to the model, its reply is stripped of fences, parsed and
      validated. Every failure surfaces as the same error. */
  function GradeAnswers(questions: seq<QuizQuestion>, answers: seq<string>,
                        model: seq<GradingTask> -> Option<string>, parse: Parser): (r: Result<seq<GradedResult>, string>)
    ensures r.Success? ==> |r.value| == |questions|
    ensures r.Failure? ==> r.error == GradeError
    ensures model(BuildTasks(questions, answers)).None? ==> r.Failure?
    ensures var reply := model(BuildTasks(questions, answers));
      reply.Some? ==> r == ValidateGrading(parse(StripFences(reply.value)), |questions|)
  {
    match model(BuildTasks(questions, answers))
    case None => Failure(GradeError)
    case Some(reply) => ValidateGrading(parse(StripFences(reply)), |questions|)
  }

  /** Results sent back one per question in the schema's layout are exactly the graded results. */
  lemma GradeAnswersRoundTrip(questions: seq<QuizQuestion>, answers: seq<string>,
                              model: seq<GradingTask> -> Option<string>, parse: Parser,
                              reply: string, gs: seq<GradedResult>)
    requires model(BuildTasks(questions, answers)) == Some(reply)
    requires |gs| == |questions|
    requires parse(StripFences(reply)) == Some(JArray(seq(|gs|, i requires 0 <= i < |gs| => ResultToJson(gs[i]))))
    ensures GradeAnswers(questions, answers, model, parse) == Success(gs)
  {
    ValidateRoundTrip(gs);
  }

  /** Validation reads results laid out by the schema back as themselves. */
  lemma ValidateRoundTrip(gs: seq<GradedResult>)
    ensures ValidateGrading(Some(JArray(seq(|gs|, i requires 0 <= i < |gs| => ResultToJson(gs[i])))), |gs|) == Success(gs)
  {
    var items := seq(|gs|, i requires 0 <= i < |gs| => ResultToJson(gs[i]));
    var r := ValidateGrading(Some(JArray(items)), |gs|).value;
    forall i | 0 <= i < |gs| ensures r[i] == gs[i] {
      assert r[i] == CoerceResult(items[i]);
      CoerceRoundTrip(gs[i]);
    }
    assert r == gs;
  }

  // ----- Chat -----

  /** The prompt is the text of the last message; an empty history has none (the source throws). */
  function ChatPrompt(history: seq<ChatMessage>): (r: Option<string>)
    ensures r.None? <==> |history| == 0
    ensures r.Some? ==> r.value == history[|history| - 1].text
  {
    if |history| == 0 then None else Some(history[|history| - 1].text)
  }

  // ----- Recommendations -----

  /** A grounding chunk's `web` part; `None` is an absent property. */
  datatype WebRef = WebRef(uri: Option<string>, title: Option<string>)
  datatype Chunk = Chunk(web: Option<WebRef>)

  /** `v || fallback` on an optional string. */
  function OrElse(v: Option<string>, fallback: string): (r: string)
    ensures v.Some? && v.value != "" ==> r == v.value
    ensures v.None? || v.value == "" ==> r == fallback
  {
    if v.Some? && v.value != "" then v.value else fallback
  }

  const NoUri: string := "#"
  const NoTitle: string := "Unknown Source"

  function SourceOf(c: Chunk): GroundingSource {
    match c.web
    case None => GroundingSource(NoUri, NoTitle)
    case Some(w) => GroundingSource(OrElse(w.uri, NoUri), OrElse(w.title, NoTitle))
  }

  /** The grounding sources: one per chunk, in order, or none when the metadata is absent. */
  function Sources(chunks: Option<seq<Chunk>>): (r: seq<GroundingSource>)
    ensures chunks.None? ==> r == []
    ensures chunks.Some? ==> |r| == |chunks.value| && forall i :: 0 <= i < |r| ==> r[i] == SourceOf(chunks.value[i])
    ensures forall i :: 0 <= i < |r| ==> r[i].uri != "" && r[i].title != ""
  {
    match chunks
    case None => []
    case Some(cs) => seq(|cs|, i requires 0 <= i < |cs| => SourceOf(cs[i]))
  }

  /** A chunk that names its page keeps the name; one that does not gets both defaults. */
  lemma SourceDefaults(c: Chunk)
    ensures c.web.Some? && c.web.value.uri.Some? && c.web.value.uri.value != "" ==> SourceOf(c).uri == c.web.value.uri.value
    ensures c.web.None? ==> SourceOf(c) == GroundingSource(NoUri, NoTitle)
    ensures SourceOf(c).uri == NoUri <==> c.web.None? || c.web.value.uri.None? || c.web.value.uri.value in {"", NoUri}
  {
  }

  /** The model's reply to the recommendation request: its text and its grounding chunks. */
  datatype RecommendationReply = RecommendationReply(text: string, chunks: Option<seq<Chunk>>)

  /** Parsed recommendations (whatever value the reply held) and their sources. */
  datatype Recommendations = Recommendations(recommendations: Json, sources: seq<GroundingSource>)

  const RecommendationError: string := "Failed to generate YouTube recommendations."

  /** How much of the context the recommendation request carries, in UTF-16 code units. */
  const RecommendationLimit: nat := 5000

  /** The recommendation request sends only the first 5000 code units of the context: the whole
      context when it fits, otherwise the longest prefix that fits. */
  function RecommendationContext(context: string): (r: string)
    ensures IsPrefix(r, context)
    ensures Utf16Length(r) <= RecommendationLimit
    ensures |r| < |context| ==> Utf16Length(r) + CodeUnits(context[|r|]) > RecommendationLimit
    ensures Utf16Length(context) <= RecommendationLimit ==> r == context
    ensures Bmp(context) ==> r == Substring(context, 0, RecommendationLimit)
  {
    PrefixUnitsShort(context, RecommendationLimit);
    PrefixUnitsBmp(context, RecommendationLimit);
    PrefixUnits(context, RecommendationLimit)
  }

  /** `getYouTubeRecommendations` after the model call: the fence-stripped reply parsed as is, with
      the sources read from the grounding metadata. */
  function GetRecommendations(reply: Option<RecommendationReply>, parse: Parser): (r: Result<Recommendations, string>)
    ensures r.Success? <==> reply.Some? && parse(StripFences(reply.value.text)).Some?
    ensures r.Failure? ==> r.error == RecommendationError
    ensures r.Success? ==>
      r.value.recommendations == parse(StripFences(reply.value.text)).value && r.value.sources == Sources(reply.value.chunks)
  {
    match reply
    case None => Failure(RecommendationError)
    case Some(RecommendationReply(text, chunks)) =>
      match parse(StripFences(text))
      case None => Failure(RecommendationError)
      case Some(j) => Success(Recommendations(j, Sources(chunks)))
  }
}
