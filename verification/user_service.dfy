/** The pure computation inside `updateUserStatsOnQuiz`
    (services/userService.ts): from the previous stats document (if any) and
    one quiz result, the new per-user stats. Reading and writing the document
    are outside the model. */
module UserService {
  import opened Types
  import opened Builtins

  datatype Plan = Free | Pro | Elite

  /** A subject's accuracy as stored: a whole percentage, or NaN once a 0/0
      has been rounded into it (NaN then sticks, since NaN * x is NaN). */
  datatype Accuracy = Percent(value: nat) | NotANumber

  datatype SubjectPerformance = SubjectPerformance(
    subject: string,
    accuracy: Accuracy,
    totalQuestions: nat,
    color: string)

  datatype UserProfileStats = UserProfileStats(
    targetExam: string,
    testsAttempted: nat,
    averageScore: nat,
    globalRank: int,
    subscriptionPlan: Plan,
    subjectWise: seq<SubjectPerformance>,
    weakChapters: seq<string>,
    recentScores: seq<nat>)

  const NewSubjectColor := "bg-blue-500"
  const RecentWindow: nat := 5

  /** The quiz's percentage: `Math.round(score / total * 100)`, or 0 for an
      empty quiz; within 0-100 when the score does not exceed the total. */
  function QuizPercentage(score: nat, total: nat): (p: nat)
    ensures total == 0 ==> p == 0
    ensures score <= total ==> p <= 100
  {
    if total > 0 then Percentage(score, total) else 0
  }

  /** The quiz's percentage is the whole number nearest to 100·score/total,
      halves up. */
  lemma QuizPercentageNearest(score: nat, total: nat)
    requires total > 0
    ensures var p := QuizPercentage(score, total);
      2 * total * p <= 200 * score + total < 2 * total * p + 2 * total
  {
    PercentageNearest(score, total);
  }

  /** The running average after the n-th test (n >= 1): the previous average
      weighted by the n - 1 earlier tests, plus this test, over n, rounded.
      It lies between the previous average and this test's percentage. */
  function RunningAverage(prevAvg: nat, n: nat, pct: nat): (avg: nat)
    requires n >= 1
    ensures Min(prevAvg, pct) <= avg <= Max(prevAvg, pct)
    ensures n == 1 ==> avg == pct
  {
    WeightedBetween(prevAvg, n - 1, pct, 1);
    Round(prevAvg * (n - 1) + pct, n)
  }

  /** The running average is the whole number nearest to
      (prevAvg·(n - 1) + pct) / n, halves up. */
  lemma RunningAverageNearest(prevAvg: nat, n: nat, pct: nat)
    requires n >= 1
    ensures var avg := RunningAverage(prevAvg, n, pct);
      2 * n * avg <= 2 * (prevAvg * (n - 1) + pct) + n < 2 * n * avg + 2 * n
  {
    RoundNearest(prevAvg * (n - 1) + pct, n);
  }

  /** A weighted mean of x and y, rounded, lies between x and y. */
  lemma WeightedBetween(x: nat, wx: nat, y: nat, wy: nat)
    requires wx + wy > 0
    ensures Min(x, y) <= Round(x * wx + y * wy, wx + wy) <= Max(x, y)
  {
    var lo, hi := Min(x, y), Max(x, y);
    assert lo * (wx + wy) == lo * wx + lo * wy;
    assert hi * (wx + wy) == hi * wx + hi * wy;
    assert lo * wx <= x * wx <= hi * wx by {
      MulMono(lo, x, wx);
      MulMono(x, hi, wx);
    }
    assert lo * wy <= y * wy <= hi * wy by {
      MulMono(lo, y, wy);
      MulMono(y, hi, wy);
    }
    RoundBetween(x * wx + y * wy, wx + wy, lo, hi);
  }

  /** `findIndex(s => s.subject === title)`: the first matching position, or -1
      when no entry has that subject. */
  function FindSubject(subjects: seq<SubjectPerformance>, title: string): (i: int)
    ensures -1 <= i < |subjects|
    ensures i == -1 <==> forall j | 0 <= j < |subjects| :: subjects[j].subject != title
    ensures i >= 0 ==> subjects[i].subject == title
    ensures i >= 0 ==> forall j | 0 <= j < i :: subjects[j].subject != title
  {
    if |subjects| == 0 then -1
    else if subjects[0].subject == title then 0
    else
      var k := FindSubject(subjects[1..], title);
      if k == -1 then -1 else k + 1
  }

  /** The merged accuracy of a subject after `quizTotal` more questions at
      `pct`: the question-weighted mean, rounded, or NaN when the totals sum to
      0 (0/0) or the old accuracy already was NaN. */
  function MergeAccuracy(prior: Accuracy, oldTotal: nat, pct: nat, quizTotal: nat): (a: Accuracy)
    ensures a.Percent? <==> prior.Percent? && oldTotal + quizTotal > 0
    ensures a.Percent? ==> Min(prior.value, pct) <= a.value <= Max(prior.value, pct)
  {
    if prior.NotANumber? || oldTotal + quizTotal == 0 then NotANumber
    else
      var merged := Round(prior.value * oldTotal + pct * quizTotal, oldTotal + quizTotal);
      assert Min(prior.value, pct) <= merged <= Max(prior.value, pct) by {
        WeightedBetween(prior.value, oldTotal, pct, quizTotal);
      }
      Percent(merged)
  }

  /** A merged accuracy that is a number is the whole number nearest to the
      question-weighted mean (prior·oldTotal + pct·quizTotal) / (oldTotal +
      quizTotal), halves up. */
  lemma MergeAccuracyNearest(prior: Accuracy, oldTotal: nat, pct: nat, quizTotal: nat)
    ensures var a := MergeAccuracy(prior, oldTotal, pct, quizTotal);
      var t := oldTotal + quizTotal;
      a.Percent? ==>
        2 * t * a.value <= 2 * (prior.value * oldTotal + pct * quizTotal) + t < 2 * t * a.value + 2 * t
  {
    if prior.Percent? && oldTotal + quizTotal > 0 {
      RoundNearest(prior.value * oldTotal + pct * quizTotal, oldTotal + quizTotal);
    }
  }

  /** The subject list after one quiz on `title`: a known subject has its
      entry merged in place and every other entry kept; a new subject gets one
      entry appended with this quiz's percentage and question count. */
  function UpsertSubject(subjects: seq<SubjectPerformance>, title: string, pct: nat, quizTotal: nat)
    : (r: seq<SubjectPerformance>)
    ensures FindSubject(subjects, title) == -1 ==>
      r == subjects + [SubjectPerformance(title, Percent(pct), quizTotal, NewSubjectColor)]
    ensures var i := FindSubject(subjects, title); i >= 0 ==>
      && |r| == |subjects|
      && (forall j | 0 <= j < |r| && j != i :: r[j] == subjects[j])
    ensures var i := FindSubject(subjects, title); i >= 0 ==>
      && r[i].subject == title
      && r[i].color == subjects[i].color
      && r[i].totalQuestions == subjects[i].totalQuestions + quizTotal
      && r[i].accuracy == MergeAccuracy(subjects[i].accuracy, subjects[i].totalQuestions, pct, quizTotal)
  {
    var i := FindSubject(subjects, title);
    if i == -1 then
      subjects + [SubjectPerformance(title, Percent(pct), quizTotal, NewSubjectColor)]
    else
      var sub := subjects[i];
      subjects[i := sub.(accuracy := MergeAccuracy(sub.accuracy, sub.totalQuestions, pct, quizTotal),
                         totalQuestions := sub.totalQuestions + quizTotal)]
  }

  /** The fields the update starts from: the previous document, or for a
      first quiz the defaults of the `?? ...` fallbacks (no tests, average 0,
      rank 0, the free plan, empty lists). */
  function Carried(prev: Option<UserProfileStats>): (c: UserProfileStats)
    ensures prev.Some? ==> c == prev.value
    ensures prev.None? ==>
      && c.testsAttempted == 0 && c.averageScore == 0 && c.globalRank == 0
      && c.subscriptionPlan == Free
      && c.subjectWise == [] && c.weakChapters == [] && c.recentScores == []
  {
    if prev.Some? then prev.value else UserProfileStats("", 0, 0, 0, Free, [], [], [])
  }

  /** The stats document written after a quiz on `topicTitle` with `score`
      correct out of `total`, given the previous document if there was one:
      one more test; the average moved towards this quiz's percentage (and
      equal to it on a first quiz); the percentage pushed onto the window of
      recent scores; the subject upserted; rank, plan and weak chapters
      carried over; the target exam always WBJEE. */
  function UpdatedStats(prev: Option<UserProfileStats>, topicTitle: string, score: nat, total: nat)
    : (r: UserProfileStats)
    ensures var c := Carried(prev); var pct := QuizPercentage(score, total);
      && r.targetExam == "WBJEE"
      && r.testsAttempted == c.testsAttempted + 1
      && r.averageScore == RunningAverage(c.averageScore, c.testsAttempted + 1, pct)
      && Min(c.averageScore, pct) <= r.averageScore <= Max(c.averageScore, pct)
      && (prev.None? ==> r.averageScore == pct)
      && r.recentScores == LastN(c.recentScores + [pct], RecentWindow)
      && r.subjectWise == UpsertSubject(c.subjectWise, topicTitle, pct, total)
      && r.globalRank == c.globalRank && r.subscriptionPlan == c.subscriptionPlan
      && r.weakChapters == c.weakChapters
  {
    var c := Carried(prev);
    var pct := QuizPercentage(score, total);
    UserProfileStats(
      "WBJEE",
      c.testsAttempted + 1,
      RunningAverage(c.averageScore, c.testsAttempted + 1, pct),
      c.globalRank,
      c.subscriptionPlan,
      UpsertSubject(c.subjectWise, topicTitle, pct, total),
      c.weakChapters,
      LastN(c.recentScores + [pct], RecentWindow))
  }

  /** The window of recent scores keeps at most five, ends with this quiz's
      percentage, and before it holds the latest of the earlier scores in
      order. */
  lemma RecentScoresWindow(prev: Option<UserProfileStats>, topicTitle: string, score: nat, total: nat)
    ensures var w := UpdatedStats(prev, topicTitle, score, total).recentScores;
      var earlier := Carried(prev).recentScores;
      && 1 <= |w| <= RecentWindow
      && w[|w| - 1] == QuizPercentage(score, total)
      && w[..|w| - 1] == earlier[|earlier| - (|w| - 1)..]
  {
    var w := UpdatedStats(prev, topicTitle, score, total).recentScores;
    var earlier := Carried(prev).recentScores;
    var all := earlier + [QuizPercentage(score, total)];
    assert w == all[|all| - |w|..];
    assert w[..|w| - 1] == all[|all| - |w|..|all| - 1];
  }

  /** Every percentage the document holds is within 0-100, and the window of
      recent scores holds at most five. */
  predicate InRange(stats: UserProfileStats)
  {
    && stats.averageScore <= 100
    && |stats.recentScores| <= RecentWindow
    && (forall k | 0 <= k < |stats.recentScores| :: stats.recentScores[k] <= 100)
    && AccuraciesInRange(stats.subjectWise)
  }

  /** Every stored accuracy that is a number is within 0-100. */
  predicate AccuraciesInRange(subjects: seq<SubjectPerformance>)
  {
    forall j | 0 <= j < |subjects| :: subjects[j].accuracy.Percent? ==> subjects[j].accuracy.value <= 100
  }

  /** Merging a percentage within 0-100 into a list of in-range accuracies keeps
      them in range. */
  lemma UpsertInRange(subjects: seq<SubjectPerformance>, title: string, pct: nat, quizTotal: nat)
    requires pct <= 100 && AccuraciesInRange(subjects)
    ensures AccuraciesInRange(UpsertSubject(subjects, title, pct, quizTotal))
  {
    var r := UpsertSubject(subjects, title, pct, quizTotal);
    var i := FindSubject(subjects, title);
    if i == -1 {
      assert forall j | 0 <= j < |subjects| :: r[j] == subjects[j];
    } else {
      assert r[i].accuracy.Percent? ==> r[i].accuracy.value <= Max(subjects[i].accuracy.value, pct);
    }
  }

  /** The last n of a list of values within 0-100 are within 0-100. */
  lemma WindowInRange(s: seq<nat>, n: nat)
    requires n > 0
    requires forall k | 0 <= k < |s| :: s[k] <= 100
    ensures forall k | 0 <= k < |LastN(s, n)| :: LastN(s, n)[k] <= 100
  {
    var w := LastN(s, n);
    assert forall k | 0 <= k < |w| :: w[k] == s[|s| - |w| + k];
  }

  /** A quiz whose score does not exceed its question count keeps every
      percentage of the document within 0-100; a first quiz starts in range. */
  lemma UpdatedStatsInRange(prev: Option<UserProfileStats>, topicTitle: string, score: nat, total: nat)
    requires score <= total
    requires prev.Some? ==> InRange(prev.value)
    ensures InRange(UpdatedStats(prev, topicTitle, score, total))
  {
    var pct := QuizPercentage(score, total);
    var c := Carried(prev);
    WindowInRange(c.recentScores + [pct], RecentWindow);
    UpsertInRange(c.subjectWise, topicTitle, pct, total);
  }

  /** Only the subject of the quiz changes: every other subject's entry is kept
      as it was, the list grows by at most one, and the quiz's subject is in
      it afterwards. */
  lemma OtherSubjectsUntouched(subjects: seq<SubjectPerformance>, title: string, pct: nat, quizTotal: nat)
    ensures var after := UpsertSubject(subjects, title, pct, quizTotal);
      && |subjects| <= |after| <= |subjects| + 1
      && (forall j | 0 <= j < |subjects| && subjects[j].subject != title :: after[j] == subjects[j])
      && (exists j | 0 <= j < |after| :: after[j].subject == title)
  {
    var after := UpsertSubject(subjects, title, pct, quizTotal);
    var i := FindSubject(subjects, title);
    if i == -1 {
      assert after[|subjects|].subject == title;
    } else {
      assert after[i].subject == title;
    }
  }
}
