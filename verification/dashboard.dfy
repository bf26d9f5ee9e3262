/** The dashboard's summaries of the attempt log: the overall score, per-topic performance with its
    strengths and weaknesses, and the most recent attempts. */
module Dashboard {
  import opened Wrappers
  import opened Types

  // ----- Overall score -----

  /** The sum of `score / total` over the attempts, or `None` as soon as one has no questions: the
      division then yields `NaN` or an infinity, which poisons the mean. */
  function RatioSum(attempts: seq<QuizAttempt>): (r: Option<real>)
    ensures r.Some? <==> forall i :: 0 <= i < |attempts| ==> attempts[i].total != 0
  {
    if |attempts| == 0 then Some(0.0)
    else
      var last := attempts[|attempts| - 1];
      match RatioSum(attempts[..|attempts| - 1])
      case None => None
      case Some(sum) => if last.total == 0 then None else Some(sum + last.score / last.total as real)
  }

  /** One attempt's ratio. */
  function Ratio(a: QuizAttempt): real
    requires a.total != 0
  {
    a.score / a.total as real
  }

  /** The sum splits over a concatenation of logs, and a single attempt contributes its own ratio. */
  lemma {:induction false} RatioSumConcat(a: seq<QuizAttempt>, b: seq<QuizAttempt>)
    ensures RatioSum(a + b).Some? <==> RatioSum(a).Some? && RatioSum(b).Some?
    ensures RatioSum(a + b).Some? ==> RatioSum(a + b).value == RatioSum(a).value + RatioSum(b).value
  {
    if |b| > 0 {
      var b' := b[..|b| - 1];
      assert (a + b)[..|a + b| - 1] == a + b';
      RatioSumConcat(a, b');
    } else {
      assert a + b == a;
    }
  }

  lemma RatioSumSingle(a: QuizAttempt)
    ensures a.total != 0 ==> RatioSum([a]) == Some(Ratio(a))
    ensures a.total == 0 ==> RatioSum([a]).None?
  {
    assert [a][..0] == [];
  }

  /** `overallScore`: 0 with no attempts; otherwise the mean of the score ratios as a percentage, a
      number only when every attempt has at least one question. */
  function OverallScore(attempts: seq<QuizAttempt>): (r: Option<real>)
    ensures |attempts| == 0 ==> r == Some(0.0)
    ensures r.Some? <==> forall i :: 0 <= i < |attempts| ==> attempts[i].total != 0
    ensures |attempts| > 0 && r.Some? ==> r.value * |attempts| as real == 100.0 * RatioSum(attempts).value
  {
    if |attempts| == 0 then Some(0.0)
    else
      match RatioSum(attempts)
      case None => None
      case Some(sum) =>
        var n := |attempts| as real;
        assert sum / n * 100.0 * n == 100.0 * sum;
        Some(sum / n * 100.0)
  }

  /** A log whose every attempt has the same ratio `x` scores `100 x` overall. */
  lemma {:induction false} OverallScoreUniform(attempts: seq<QuizAttempt>, x: real)
    requires |attempts| > 0
    requires forall i :: 0 <= i < |attempts| ==> attempts[i].total != 0 && Ratio(attempts[i]) == x
    ensures OverallScore(attempts) == Some(100.0 * x)
  {
    RatioSumUniform(attempts, x);
    var n := |attempts| as real;
    assert OverallScore(attempts).value * n == 100.0 * x * n;
  }

  lemma {:induction false} RatioSumUniform(attempts: seq<QuizAttempt>, x: real)
    requires forall i :: 0 <= i < |attempts| ==> attempts[i].total != 0 && Ratio(attempts[i]) == x
    ensures RatioSum(attempts) == Some((|attempts| as real) * x)
  {
    if |attempts| > 0 {
      var init, last := attempts[..|attempts| - 1], attempts[|attempts| - 1];
      RatioSumUniform(init, x);
      assert last.total != 0 && Ratio(last) == x;
      MulSucc(|init|, x);
      assert RatioSum(attempts) == Some((|init| as real) * x + Ratio(last));
      assert (|init| as real) * x + Ratio(last) == (|attempts| as real) * x;
    } else {
      assert (|attempts| as real) * x == 0.0;
    }
  }

  lemma MulSucc(k: nat, x: real)
    ensures (k as real) * x + x == ((k + 1) as real) * x
  {
  }

  /** Attempts scored within their totals give an overall score between 0 and 100. */
  lemma OverallScoreBounds(attempts: seq<QuizAttempt>)
    requires forall i :: 0 <= i < |attempts| ==> 0.0 <= attempts[i].score <= attempts[i].total as real && attempts[i].total > 0
    ensures OverallScore(attempts).Some? && 0.0 <= OverallScore(attempts).value <= 100.0
  {
    RatioSumBounds(attempts);
    if |attempts| > 0 {
      MeanBounds(RatioSum(attempts).value, |attempts| as real);
    }
  }

  lemma MeanBounds(sum: real, n: real)
    requires 0.0 <= sum <= n && n > 0.0
    ensures 0.0 <= sum / n * 100.0 <= 100.0
  {
    RatioBounds(sum, n);
  }

  lemma {:induction false} RatioSumBounds(attempts: seq<QuizAttempt>)
    requires forall i :: 0 <= i < |attempts| ==> 0.0 <= attempts[i].score <= attempts[i].total as real && attempts[i].total > 0
    ensures RatioSum(attempts).Some? && 0.0 <= RatioSum(attempts).value <= |attempts| as real
  {
    if |attempts| > 0 {
      var last := attempts[|attempts| - 1];
      RatioSumBounds(attempts[..|attempts| - 1]);
      RatioBounds(last.score, last.total as real);
    }
  }

  lemma RatioBounds(score: real, total: real)
    requires 0.0 <= score <= total && total > 0.0
    ensures 0.0 <= score / total <= 1.0
  {
  }

  // ----- Per-topic performance -----

  /** One question's share of its topic: its topic and the score of the result at its index, 0 when
      the attempt has no result there. */
  datatype Contribution = Contribution(topic: string, score: real)

  function ScoreAt(a: QuizAttempt, i: nat): real {
    if i < |a.gradedResults| then a.gradedResults[i].score else 0.0
  }

  /** The contributions of one attempt, one per question, in question order. */
  function AttemptContributions(a: QuizAttempt): (r: seq<Contribution>)
    ensures |r| == |a.questions|
    ensures forall i :: 0 <= i < |r| ==> r[i].topic == a.questions[i].topic
    ensures forall i :: 0 <= i < |r| ==> r[i].score == if i < |a.gradedResults| then a.gradedResults[i].score else 0.0
  {
    seq(|a.questions|, i requires 0 <= i < |a.questions| => Contribution(a.questions[i].topic, ScoreAt(a, i)))
  }

  function QuestionCount(attempts: seq<QuizAttempt>): nat {
    if |attempts| == 0 then 0 else QuestionCount(attempts[..|attempts| - 1]) + |attempts[|attempts| - 1].questions|
  }

  /** The `flatMap` over the attempts: every question of every attempt contributes exactly once. */
  function Contributions(attempts: seq<QuizAttempt>): (r: seq<Contribution>)
    ensures |r| == QuestionCount(attempts)
  {
    if |attempts| == 0 then []
    else Contributions(attempts[..|attempts| - 1]) + AttemptContributions(attempts[|attempts| - 1])
  }

  /** The contributions of two logs are those of the first followed by those of the second, and a
      log of one attempt contributes exactly that attempt's questions. */
  lemma {:induction false} ContributionsConcat(a: seq<QuizAttempt>, b: seq<QuizAttempt>)
    ensures Contributions(a + b) == Contributions(a) + Contributions(b)
  {
    if |b| > 0 {
      var b' := b[..|b| - 1];
      assert (a + b)[..|a + b| - 1] == a + b';
      ContributionsConcat(a, b');
    } else {
      assert a + b == a;
    }
  }

  lemma ContributionsSingle(a: QuizAttempt)
    ensures Contributions([a]) == AttemptContributions(a)
  {
    assert [a][..0] == [];
  }

  datatype TopicStat = TopicStat(totalScore: real, count: nat)

  /** Reference definitions: how many contributions a topic has, and what they add up to. */
  function CountFor(cs: seq<Contribution>, topic: string): nat {
    if |cs| == 0 then 0
    else CountFor(cs[..|cs| - 1], topic) + if cs[|cs| - 1].topic == topic then 1 else 0
  }

  function SumFor(cs: seq<Contribution>, topic: string): real {
    if |cs| == 0 then 0.0
    else SumFor(cs[..|cs| - 1], topic) + if cs[|cs| - 1].topic == topic then cs[|cs| - 1].score else 0.0
  }

  /** One step of the `reduce`: a topic seen for the first time starts at zero, then its total grows
      by the score and its count by one. */
  function Accumulate(acc: map<string, TopicStat>, c: Contribution): (r: map<string, TopicStat>)
    ensures r.Keys == acc.Keys + {c.topic}
    ensures forall t :: t in acc && t != c.topic ==> r[t] == acc[t]
    ensures c.topic in acc ==> r[c.topic] == TopicStat(acc[c.topic].totalScore + c.score, acc[c.topic].count + 1)
    ensures c.topic !in acc ==> r[c.topic] == TopicStat(c.score, 1)
  {
    var before := if c.topic in acc then acc[c.topic] else TopicStat(0.0, 0);
    acc[c.topic := TopicStat(before.totalScore + c.score, before.count + 1)]
  }

  /** The `reduce` into per-topic totals: a topic is present exactly when it has a contribution, and
      its entry holds the sum and the number of its contributions. */
  function TopicStats(cs: seq<Contribution>): (r: map<string, TopicStat>)
    ensures forall t :: t in r <==> CountFor(cs, t) > 0
    ensures forall t :: t in r ==> r[t] == TopicStat(SumFor(cs, t), CountFor(cs, t))
    ensures forall t :: t !in r ==> SumFor(cs, t) == 0.0
  {
    if |cs| == 0 then map[]
    else
      var init, last := cs[..|cs| - 1], cs[|cs| - 1];
      var acc := TopicStats(init);
      var r := Accumulate(acc, last);
      assert forall t :: CountFor(cs, t) == CountFor(init, t) + (if last.topic == t then 1 else 0);
      assert forall t :: SumFor(cs, t) == SumFor(init, t) + (if last.topic == t then last.score else 0.0);
      r
  }

  /** The names a plain object inherits from `Object.prototype`; each reads as a truthy value. */
  const InheritedNames: set<string> := {
    "constructor", "__proto__", "hasOwnProperty", "isPrototypeOf", "propertyIsEnumerable",
    "toString", "toLocaleString", "valueOf",
    "__defineGetter__", "__defineSetter__", "__lookupGetter__", "__lookupSetter__"}

  /** The `reduce` step exactly as written: the accumulator is a plain object, so for an inherited
      name `!acc[topic]` is false, no entry is created, and the additions land on the inherited
      member instead. The topic never becomes an own entry. */
  function AccumulateAsWritten(acc: map<string, TopicStat>, c: Contribution): (r: map<string, TopicStat>)
    ensures c.topic in InheritedNames ==> r == acc
    ensures c.topic !in InheritedNames ==> r == Accumulate(acc, c)
  {
    if c.topic in InheritedNames then acc else Accumulate(acc, c)
  }

  function TopicStatsAsWritten(cs: seq<Contribution>): map<string, TopicStat> {
    if |cs| == 0 then map[] else AccumulateAsWritten(TopicStatsAsWritten(cs[..|cs| - 1]), cs[|cs| - 1])
  }

  /** As written, the aggregation is the intended one with every inherited name missing. */
  lemma {:induction false} TopicStatsAsWrittenDropsInherited(cs: seq<Contribution>)
    ensures TopicStatsAsWritten(cs) == TopicStats(cs) - InheritedNames
  {
    if |cs| > 0 {
      var init, last := cs[..|cs| - 1], cs[|cs| - 1];
      TopicStatsAsWrittenDropsInherited(init);
      var a, b := TopicStatsAsWritten(cs), TopicStats(cs) - InheritedNames;
      assert a.Keys == b.Keys;
      assert forall t :: t in a ==> a[t] == b[t];
    }
  }

  /** A single question on the topic "constructor" shows up in the intended statistics but not in
      the ones the dashboard computes. */
  lemma ConstructorTopicIsLost()
    ensures var cs := [Contribution("constructor", 1.0)];
      && "constructor" in TopicStats(cs) && TopicStats(cs)["constructor"].count == 1
      && "constructor" !in TopicStatsAsWritten(cs)
  {
    var cs := [Contribution("constructor", 1.0)];
    assert cs[..0] == [];
    assert CountFor(cs, "constructor") == 1;
  }

  /** A topic's score percentage. Every topic in the statistics has a contribution, so the count is
      positive. */
  function Percentage(s: TopicStat): real
    requires s.count > 0
  {
    s.totalScore / s.count as real * 100.0
  }

  /** `performanceData`, as a map from topic to percentage. */
  function Performance(stats: map<string, TopicStat>): (r: map<string, real>)
    requires forall t :: t in stats ==> stats[t].count > 0
    ensures r.Keys == stats.Keys
    ensures forall t :: t in r ==> r[t] == Percentage(stats[t])
  {
    map t | t in stats :: Percentage(stats[t])
  }

  /** The statistics of the whole log. */
  function LogPerformance(attempts: seq<QuizAttempt>): (r: map<string, real>)
    ensures forall t :: t in r <==> CountFor(Contributions(attempts), t) > 0
    ensures var cs := Contributions(attempts);
      forall t :: t in r ==> r[t] == SumFor(cs, t) / CountFor(cs, t) as real * 100.0
  {
    Performance(TopicStats(Contributions(attempts)))
  }

  /** Strengths score at least 75 percent, weaknesses below 50: no topic is both. */
  function Strengths(perf: map<string, real>): (r: set<string>)
    ensures forall t :: t in r <==> t in perf && perf[t] >= 75.0
  {
    set t | t in perf && perf[t] >= 75.0
  }

  function Weaknesses(perf: map<string, real>): (r: set<string>)
    ensures forall t :: t in r <==> t in perf && perf[t] < 50.0
  {
    set t | t in perf && perf[t] < 50.0
  }

  lemma StrengthsAndWeaknessesDisjoint(perf: map<string, real>)
    ensures Strengths(perf) * Weaknesses(perf) == {}
    ensures Strengths(perf) + Weaknesses(perf) <= perf.Keys
  {
  }

  /** A topic every one of whose questions earned full marks scores 100 percent, and so is a
      strength. */
  lemma FullMarksIsStrength(cs: seq<Contribution>, topic: string)
    requires CountFor(cs, topic) > 0
    requires forall i :: 0 <= i < |cs| && cs[i].topic == topic ==> cs[i].score == 1.0
    ensures var stats := TopicStats(cs);
      Percentage(stats[topic]) == 100.0 && topic in Strengths(Performance(stats))
  {
    var stats := TopicStats(cs);
    FullMarksSum(cs, topic);
    assert stats[topic].totalScore == stats[topic].count as real;
    assert Percentage(stats[topic]) == 100.0 by { FullPercentage(stats[topic]); }
    assert Performance(stats)[topic] == 100.0;
  }

  lemma FullPercentage(s: TopicStat)
    requires s.count > 0 && s.totalScore == s.count as real
    ensures Percentage(s) == 100.0
  {
    var c := s.count as real;
    assert s.totalScore / c == 1.0;
  }

  lemma {:induction false} FullMarksSum(cs: seq<Contribution>, topic: string)
    requires forall i :: 0 <= i < |cs| && cs[i].topic == topic ==> cs[i].score == 1.0
    ensures SumFor(cs, topic) == CountFor(cs, topic) as real
  {
    if |cs| > 0 {
      FullMarksSum(cs[..|cs| - 1], topic);
    }
  }

  // ----- Recent attempts -----

  function Reverse<T>(s: seq<T>): (r: seq<T>)
    ensures |r| == |s| && forall i :: 0 <= i < |s| ==> r[i] == s[|s| - 1 - i]
  {
    seq(|s|, i requires 0 <= i < |s| => s[|s| - 1 - i])
  }

  const RecentCount: nat := 5

  /** `recentAttempts`: the newest attempts first, at most five, taken from a copy. */
  function Recent(attempts: seq<QuizAttempt>): (r: seq<QuizAttempt>)
    ensures |r| == if |attempts| < RecentCount then |attempts| else RecentCount
    ensures forall i :: 0 <= i < |r| ==> r[i] == attempts[|attempts| - 1 - i]
  {
    var newestFirst := Reverse(attempts);
    if |newestFirst| < RecentCount then newestFirst else newestFirst[..RecentCount]
  }

  /** The newest attempt heads the recent list, and an attempt added to the log becomes it. */
  lemma RecentAfterAdd(attempts: seq<QuizAttempt>, a: QuizAttempt)
    ensures Recent(attempts + [a])[0] == a
    ensures |attempts| >= RecentCount ==> Recent(attempts + [a])[1..] == Recent(attempts)[..RecentCount - 1]
    ensures |attempts| < RecentCount ==> Recent(attempts + [a])[1..] == Recent(attempts)
  {
    var r, r' := Recent(attempts), Recent(attempts + [a]);
    assert forall i :: 1 <= i < |r'| ==> r'[i] == attempts[|attempts| - i];
  }

  /** How an attempt is badged: the percentage only when it has questions, coloured by the ratio. */
  datatype Band = Good | Fair | Poor

  function AttemptPercent(a: QuizAttempt): (r: Option<(real, Band)>)
    ensures r.Some? <==> a.total > 0
    ensures r.Some? ==> r.value.0 * a.total as real == a.score * 100.0
    ensures r.Some? ==> (r.value.1 == Good <==> r.value.0 >= 70.0) && (r.value.1 == Poor <==> r.value.0 < 40.0)
  {
    if a.total > 0 then
      var ratio := a.score / a.total as real;
      Some((ratio * 100.0, if ratio >= 0.7 then Good else if ratio >= 0.4 then Fair else Poor))
    else None
  }
}
