/** The quiz flow of the application shell (App.tsx): the two topic tables and
    the view's choice between them, how `startQuiz` picks its questions (the
    topic's bank questions, shuffled and cut to five, or else a request to the
    generator with a prompt built from the topic and the class), the graded
    results screen, and `resetQuiz`. The generator, the shuffle's randomness and
    the sign-in state are parameters. */
module App {
  import opened Types
  import opened Builtins
  import QuestionBank
  import QuizInterface

  // ---------------------------------------------------------------------------
  // Topic tables (App.tsx:15-82) and the view's choice (App.tsx:198-207)
  // ---------------------------------------------------------------------------

  const GeneralTopics: seq<TopicDef> := [
    TopicDef("wbcs-history", "Bengal History",
      "Ancient, Medieval, and Modern history of Bengal region.", "landmark", "text-amber-600"),
    TopicDef("wb-geo", "WB Geography",
      "Rivers, soil, climate, and demographics of West Bengal.", "map-pin", "text-emerald-600"),
    TopicDef("polity", "Indian Polity",
      "Constitution, Panchayati Raj, and Governance.", "gavel", "text-blue-600"),
    TopicDef("bengali-lit", "Bengali Literature",
      "Famous authors, poems, and literary eras.", "book-open", "text-rose-600"),
    TopicDef("science", "General Science",
      "Physics, Chemistry, and Biology basics for competitive exams.", "flask", "text-violet-600"),
    TopicDef("math", "Arithmetic",
      "Quantitative aptitude and reasoning.", "calculator", "text-cyan-600")
  ]

  const WbjeeTopics: seq<TopicDef> := [
    TopicDef("wbjee-physics", "Physics",
      "Mechanics, Optics, Electromagnetism, and Modern Physics for Engineering.", "atom", "text-violet-600"),
    TopicDef("wbjee-chemistry", "Chemistry",
      "Physical, Organic, and Inorganic Chemistry.", "flask", "text-emerald-600"),
    TopicDef("wbjee-math", "Mathematics",
      "Calculus, Algebra, Coordinate Geometry, and Trigonometry.", "calculator", "text-blue-600")
  ]

  /** The class value the entrance-exam card selects. */
  const Wbjee := "WBJEE"

  /** `allTopics`, the list the admin panel offers. */
  const AllTopics: seq<TopicDef> := GeneralTopics + WbjeeTopics

  /** No two topics share an id, so the bank's per-topic lists never mix. */
  predicate DistinctIds(topics: seq<TopicDef>)
  {
    forall i, j | 0 <= i < j < |topics| :: topics[i].id != topics[j].id
  }

  /** The combined topic list has pairwise distinct ids. */
  lemma TopicIdsDistinct()
    ensures DistinctIds(AllTopics)
    ensures |AllTopics| == |GeneralTopics| + |WbjeeTopics| == 9
  {
    var ids := seq(|AllTopics|, i requires 0 <= i < |AllTopics| => AllTopics[i].id);
    assert ids == ["wbcs-history", "wb-geo", "polity", "bengali-lit", "science", "math",
                   "wbjee-physics", "wbjee-chemistry", "wbjee-math"];
    forall i, j | 0 <= i < j < |AllTopics|
      ensures AllTopics[i].id != AllTopics[j].id
    {
      assert ids[i] == AllTopics[i].id && ids[j] == AllTopics[j].id;
    }
  }

  /** `getTopicsForView`: the entrance-exam subjects exactly when the selected
      class is "WBJEE", the general subjects otherwise (another class or none);
      either way a non-empty part of the combined list. */
  function TopicsForView(selectedClass: Option<string>): (topics: seq<TopicDef>)
    ensures topics == WbjeeTopics <==> selectedClass == Some(Wbjee)
    ensures topics == GeneralTopics <==> selectedClass != Some(Wbjee)
    ensures |topics| > 0 && forall t | t in topics :: t in AllTopics
  {
    assert GeneralTopics[0] != WbjeeTopics[0];
    if selectedClass == Some(Wbjee) then WbjeeTopics else GeneralTopics
  }

  // ---------------------------------------------------------------------------
  // The generator's prompt topic (App.tsx:133-138)
  // ---------------------------------------------------------------------------

  /** The suffix of App.tsx:135, written as two literals so that its first
      characters are visible to the verifier without unfolding one long
      literal. */
  const WbjeeSuffix := " specifically" + " for WBJEE (West Bengal Joint Entrance Examination) Engineering Entrance"
  const ClassLead := " for Class "
  const BoardSuffix := " (West Bengal Board)"

  /** The topic text sent to the generator: the title, followed by the WBJEE
      suffix for the entrance exam, by the class and board for any other
      non-empty class, and by nothing when no class is selected (an empty class
      name is falsy and counts as none). */
  function PromptTopic(title: string, selectedClass: Option<string>): (p: string)
    ensures StartsWith(p, title)
    ensures selectedClass == Some(Wbjee) ==> p == title + WbjeeSuffix
    ensures selectedClass.Some? && selectedClass.value !in {Wbjee, ""} ==>
      p == title + ClassLead + selectedClass.value + BoardSuffix
    ensures selectedClass.None? || selectedClass == Some("") <==> p == title
  {
    if selectedClass == Some(Wbjee) then title + WbjeeSuffix
    else if selectedClass.Some? && selectedClass.value != "" then
      title + ClassLead + selectedClass.value + BoardSuffix
    else title
  }

  /** Different classes give different prompts for the same topic, so the
      generator is always told which class it writes for. */
  lemma PromptNamesTheClass(title: string, c: string, d: string)
    requires c != "" && d != "" && c != d
    ensures PromptTopic(title, Some(c)) != PromptTopic(title, Some(d))
  {
    var p, q := PromptTopic(title, Some(c)), PromptTopic(title, Some(d));
    var k := |title|;
    if c == Wbjee || d == Wbjee {
      // one prompt continues with " specifically", the other with " for Class"
      var other := if c == Wbjee then d else c;
      var w, o := title + WbjeeSuffix, title + ClassLead + other + BoardSuffix;
      assert w[k + 1] == WbjeeSuffix[1] == 's';
      assert o[k + 1] == ClassLead[1] == 'f';
      assert {p, q} == {w, o};
    } else if |c| == |d| {
      var lead := |title + ClassLead|;
      assert p[lead..lead + |c|] == c && q[lead..lead + |d|] == d;
    } else {
      assert |p| != |q|;
    }
  }

  // ---------------------------------------------------------------------------
  // Choosing the questions (App.tsx:110-147)
  // ---------------------------------------------------------------------------

  /** How many questions a quiz takes from the bank and asks the generator for. */
  const QuizLength: nat := 5

  /** What `startQuiz` does once signed in: play bank questions, or ask the
      generator for `count` questions on `promptTopic`. */
  datatype QuizPlan = UseBank(questions: seq<Question>) | Generate(promptTopic: string, count: nat)

  /** What `const localQuestions = getQuestionsForTopic(id)` holds: the awaited
      list, or an unsettled promise (whose `length` is undefined). */
  datatype Fetched = Awaited(questions: seq<Question>) | Pending

  /** `localQuestions.length > 0`; `undefined > 0` is false. */
  predicate HasLocalQuestions(local: Fetched)
  {
    local.Awaited? && |local.questions| > 0
  }

  /** The questions a topic has in the bank, in stored order. */
  function BankQuestions(store: seq<QuestionBank.BankRecord>, topicId: string): (qs: seq<Question>)
    ensures |qs| == |QuestionBank.QuestionsForTopic(store, topicId)|
    ensures forall i | 0 <= i < |qs| :: qs[i] == QuestionBank.QuestionsForTopic(store, topicId)[i].question
  {
    var records := QuestionBank.QuestionsForTopic(store, topicId);
    seq(|records|, i requires 0 <= i < |records| => records[i].question)
  }

  /** The choice at App.tsx:124-142. `shuffled` is `[...local].sort(random)`:
      any rearrangement of the local questions. */
  function SelectQuestions(local: Fetched, shuffled: seq<Question>, title: string, selectedClass: Option<string>)
    : (plan: QuizPlan)
    requires local.Awaited? ==> multiset(shuffled) == multiset(local.questions)
    ensures plan.UseBank? <==> HasLocalQuestions(local)
    ensures plan.UseBank? ==> plan.questions == shuffled[..Min(QuizLength, |shuffled|)]
    ensures plan.Generate? ==> plan == Generate(PromptTopic(title, selectedClass), QuizLength)
  {
    if HasLocalQuestions(local) then UseBank(shuffled[..Min(QuizLength, |shuffled|)])
    else Generate(PromptTopic(title, selectedClass), QuizLength)
  }

  /** The plan as written: the bank is read without `await`, so the check sees a
      promise. */
  function PlanQuizAsWritten(store: seq<QuestionBank.BankRecord>, topic: TopicDef, shuffled: seq<Question>,
                             selectedClass: Option<string>): (plan: QuizPlan)
    ensures plan.Generate?
  {
    SelectQuestions(Pending, shuffled, topic.title, selectedClass)
  }

  /** As written, a topic with bank questions still goes to the generator. */
  lemma BankIgnoredAsWritten(q: Question)
    ensures var store := [QuestionBank.BankRecord(q, "polity", "")];
      && |BankQuestions(store, "polity")| == 1
      && PlanQuizAsWritten(store, GeneralTopics[2], [q], None).Generate?
      && PlanQuiz(store, GeneralTopics[2], [q], None) == UseBank([q])
  {
    var store := [QuestionBank.BankRecord(q, "polity", "")];
    assert QuestionBank.QuestionsForTopic(store, "polity") == store;
    assert BankQuestions(store, "polity") == [q];
  }

  /** The plan with the bank awaited: with M > 0 bank questions the quiz gets
      min(5, M) of them, a prefix of a rearrangement of the bank, so none is
      used more often than the bank holds it; an empty bank asks the generator
      for five questions. */
  function PlanQuiz(store: seq<QuestionBank.BankRecord>, topic: TopicDef, shuffled: seq<Question>,
                    selectedClass: Option<string>): (plan: QuizPlan)
    requires multiset(shuffled) == multiset(BankQuestions(store, topic.id))
    ensures var bank := BankQuestions(store, topic.id);
      && (plan.UseBank? <==> |bank| > 0)
      && (plan.UseBank? ==> |plan.questions| == Min(QuizLength, |bank|))
      && (plan.UseBank? ==> multiset(plan.questions) <= multiset(bank))
      && (plan.UseBank? ==> forall i | 0 <= i < |plan.questions| :: plan.questions[i] in bank)
      && (plan.Generate? ==> plan.count == QuizLength)
  {
    var bank := BankQuestions(store, topic.id);
    assert |shuffled| == |multiset(shuffled)| == |bank|;
    var plan := SelectQuestions(Awaited(bank), shuffled, topic.title, selectedClass);
    if plan.UseBank? then
      PrefixSubMultiset(shuffled, Min(QuizLength, |shuffled|));
      assert forall i | 0 <= i < |plan.questions| :: plan.questions[i] in multiset(bank);
      plan
    else plan
  }

  /** A prefix holds no element more often than the whole sequence. */
  lemma PrefixSubMultiset<T>(s: seq<T>, k: nat)
    requires k <= |s|
    ensures multiset(s[..k]) <= multiset(s)
  {
    assert s == s[..k] + s[k..];
    assert multiset(s) == multiset(s[..k]) + multiset(s[k..]);
  }

  // ---------------------------------------------------------------------------
  // Application state (App.tsx:88-96) and its quiz transitions
  // ---------------------------------------------------------------------------

  datatype View = Home | Classes | Topics | Profile | Admin | AdminLogin

  datatype AppState = AppState(
    status: QuizStatus,
    view: View,
    selectedClass: Option<string>,
    authModalOpen: bool,
    questions: seq<Question>,
    score: nat,
    selectedTopic: Option<TopicDef>)

  /** The state `startQuiz(topic)` settles in as written: the bank check sees
      an unsettled promise, so the bank is never used. Signed out, only the
      sign-in dialog opens. Signed in, the topic is selected and the quiz goes
      active with what the generator returned (`generated`, None when the
      request throws, which ends in ERROR with the old questions kept),
      whatever the bank holds. */
  function StartQuizAsWritten(st: AppState, signedIn: bool, topic: TopicDef, store: seq<QuestionBank.BankRecord>,
                              shuffled: seq<Question>, generated: Option<seq<Question>>): (r: AppState)
    ensures !signedIn ==> r == st.(authModalOpen := true)
    ensures signedIn ==> r.(status := st.status, questions := st.questions, selectedTopic := st.selectedTopic) == st
    ensures signedIn ==>
      && r.selectedTopic == Some(topic)
      && r.view == st.view && r.selectedClass == st.selectedClass && r.score == st.score
      && (r.status == Error <==> generated.None?)
      && (r.status != Error ==> r.status == Active && r.questions == generated.value)
      && (r.status == Error ==> r.questions == st.questions)
  {
    if !signedIn then st.(authModalOpen := true)
    else
      var chosen := st.(selectedTopic := Some(topic));
      match PlanQuizAsWritten(store, topic, shuffled, st.selectedClass)
      case UseBank(qs) => chosen.(questions := qs, status := Active)
      case Generate(_, _) =>
        if generated.Some? then chosen.(questions := generated.value, status := Active)
        else chosen.(status := Error)
  }

  /** The corrected `startQuiz`, with the bank awaited. Signed out, only the
      sign-in dialog opens. Signed in, the topic is selected and the quiz goes
      active with the planned bank questions, or with what the generator
      returned (`generated`, None when the request throws, which ends in ERROR
      with the old questions kept). */
  function StartQuiz(st: AppState, signedIn: bool, topic: TopicDef, store: seq<QuestionBank.BankRecord>,
                     shuffled: seq<Question>, generated: Option<seq<Question>>): (r: AppState)
    requires multiset(shuffled) == multiset(BankQuestions(store, topic.id))
    ensures !signedIn ==> r == st.(authModalOpen := true)
    ensures signedIn ==> r.(status := st.status, questions := st.questions, selectedTopic := st.selectedTopic) == st
    ensures signedIn ==>
      && r.selectedTopic == Some(topic)
      && r.view == st.view && r.selectedClass == st.selectedClass && r.score == st.score
      && (r.status == Error <==> |BankQuestions(store, topic.id)| == 0 && generated.None?)
      && (r.status != Error ==> r.status == Active)
      && (|BankQuestions(store, topic.id)| > 0 ==>
            |r.questions| == Min(QuizLength, |BankQuestions(store, topic.id)|)
            && multiset(r.questions) <= multiset(BankQuestions(store, topic.id)))
      && (|BankQuestions(store, topic.id)| == 0 && generated.Some? ==> r.questions == generated.value)
      && (r.status == Error ==> r.questions == st.questions)
  {
    if !signedIn then st.(authModalOpen := true)
    else
      var chosen := st.(selectedTopic := Some(topic));
      match PlanQuiz(store, topic, shuffled, st.selectedClass)
      case UseBank(qs) => chosen.(questions := qs, status := Active)
      case Generate(_, _) =>
        if generated.Some? then chosen.(questions := generated.value, status := Active)
        else chosen.(status := Error)
  }

  /** The corrected flow differs from the written one only for a topic with
      bank questions: with an empty bank both settle in the same state. */
  lemma StartQuizAgreesOnEmptyBank(st: AppState, signedIn: bool, topic: TopicDef, store: seq<QuestionBank.BankRecord>,
                                   shuffled: seq<Question>, generated: Option<seq<Question>>)
    requires multiset(shuffled) == multiset(BankQuestions(store, topic.id))
    requires |BankQuestions(store, topic.id)| == 0
    ensures StartQuiz(st, signedIn, topic, store, shuffled, generated)
         == StartQuizAsWritten(st, signedIn, topic, store, shuffled, generated)
  {
  }

  /** With a bank question for the topic and a failing generator, the written
      flow ends in ERROR while the corrected one starts the quiz. */
  lemma StartQuizBankDiffers(st: AppState, q: Question)
    ensures var store := [QuestionBank.BankRecord(q, "polity", "")];
      && StartQuizAsWritten(st, true, GeneralTopics[2], store, [q], None).status == Error
      && StartQuiz(st, true, GeneralTopics[2], store, [q], None).status == Active
      && StartQuiz(st, true, GeneralTopics[2], store, [q], None).questions == [q]
  {
    BankIgnoredAsWritten(q);
  }

  /** `handleQuizComplete`: the reported score is kept and the results show. */
  function HandleQuizComplete(st: AppState, finalScore: nat): (r: AppState)
    ensures r.status == Completed && r.score == finalScore
    ensures r.(status := st.status, score := st.score) == st
  {
    st.(score := finalScore, status := Completed)
  }

  /** `resetQuiz`: the quiz is emptied and the topic list shows again; the class
      choice and the dialog are kept. */
  function ResetQuiz(st: AppState): (r: AppState)
    ensures r.questions == [] && r.score == 0 && r.selectedTopic == None
    ensures r.status == Idle && r.view == Topics
    ensures r.selectedClass == st.selectedClass && r.authModalOpen == st.authModalOpen
  {
    AppState(Idle, Topics, st.selectedClass, st.authModalOpen, [], 0, None)
  }

  /** Resetting twice is resetting once, and the topics offered afterwards are
      the ones offered before. */
  lemma ResetQuizIdempotent(st: AppState)
    ensures ResetQuiz(ResetQuiz(st)) == ResetQuiz(st)
    ensures TopicsForView(ResetQuiz(st).selectedClass) == TopicsForView(st.selectedClass)
  {
  }

  // ---------------------------------------------------------------------------
  // The results screen (App.tsx:413-417)
  // ---------------------------------------------------------------------------

  /** The value `Math.round(score / questions.length * 100)` can take: a whole
      percentage, Infinity (a positive score over no questions) or NaN (0 / 0). */
  datatype Shown = Whole(value: nat) | Infinite | NaN

  /** `Math.round(score / questions.length * 100)`. */
  function ResultPercentage(score: nat, count: nat): (p: Shown)
    ensures p.NaN? <==> count == 0 && score == 0
    ensures p.Infinite? <==> count == 0 && score > 0
    ensures p.Whole? && score <= count ==> p.value <= 100
    ensures p.Whole? && score == count ==> p.value == 100
    ensures p.Whole? ==> 2 * count * p.value <= 200 * score + count < 2 * count * p.value + 2 * count
  {
    if count == 0 then (if score == 0 then NaN else Infinite)
    else
      PercentageNearest(score, count);
      Whole(Percentage(score, count))
  }

  const Excellent := "Excellent Work!"
  const GoodJob := "Good Job!"
  const KeepPracticing := "Keep Practicing!"

  /** The headline for a percentage: 80 and above (Infinity included) is
      excellent, 60 to 79 good, anything lower, and NaN, which fails both
      comparisons, keep practicing. */
  function ResultMessage(percentage: Shown): (m: string)
    ensures m == Excellent <==> percentage.Infinite? || (percentage.Whole? && percentage.value >= 80)
    ensures m == GoodJob <==> percentage.Whole? && 60 <= percentage.value < 80
    ensures m == KeepPracticing <==> percentage.NaN? || (percentage.Whole? && percentage.value < 60)
  {
    if percentage.Infinite? || (percentage.Whole? && percentage.value >= 80) then Excellent
    else if percentage.Whole? && percentage.value >= 60 then GoodJob
    else KeepPracticing
  }

  /** The rank of a headline: keep practicing < good < excellent. */
  function MessageRank(m: string): (rank: nat)
  {
    if m == Excellent then 2 else if m == GoodJob then 1 else 0
  }

  /** A higher score on the same quiz never earns a lesser headline. */
  lemma ResultMessageMonotone(a: nat, b: nat, count: nat)
    requires a <= b
    ensures MessageRank(ResultMessage(ResultPercentage(a, count))) <= MessageRank(ResultMessage(ResultPercentage(b, count)))
  {
    if count > 0 {
      PercentageMonotone(a, b, count);
    }
  }

  /** The rounded percentage grows with the score. */
  lemma PercentageMonotone(a: nat, b: nat, count: nat)
    requires a <= b && count > 0
    ensures Percentage(a, count) <= Percentage(b, count)
  {
    MulMono(a, b, 100);
    var x, y := 200 * a + count, 200 * b + count;
    var d := 2 * count;
    assert Round(100 * a, count) == x / d && Round(100 * b, count) == y / d;
    DivMono(x, y, d);
  }

  lemma {:induction false} DivMono(x: nat, y: nat, d: nat)
    requires x <= y && d > 0
    ensures x / d <= y / d
  {
    var qx, qy := x / d, y / d;
    assert d * qx <= x && y < d * qy + d;
    assert d * qx < d * (qy + 1);
    MulStrictCancel(d, qx, qy + 1);
  }

  /** The headline read off the score itself: excellent exactly from 79.5 % of
      the questions, good exactly from 59.5 % up to that. */
  lemma MessageOfScore(score: nat, count: nat)
    requires count > 0
    ensures ResultMessage(ResultPercentage(score, count)) == Excellent <==> 200 * score >= 159 * count
    ensures ResultMessage(ResultPercentage(score, count)) == GoodJob <==> 119 * count <= 200 * score < 159 * count
  {
    var p := Percentage(score, count);
    PercentageNearest(score, count);
    Threshold(p, count, 80, 200 * score + count);
    Threshold(p, count, 60, 200 * score + count);
  }

  /** For the nearest whole number p to x / 2c, p reaches k exactly when x
      reaches 2ck. */
  lemma Threshold(p: nat, c: nat, k: nat, x: nat)
    requires c > 0 && 2 * c * p <= x < 2 * c * p + 2 * c
    ensures p >= k <==> x >= 2 * c * k
  {
    if p >= k {
      MulMono(k, p, 2 * c);
      assert 2 * c * k == k * (2 * c) && 2 * c * p == p * (2 * c);
    } else {
      MulMono(p + 1, k, 2 * c);
      assert 2 * c * k == k * (2 * c) && 2 * c * p + 2 * c == (p + 1) * (2 * c);
    }
  }

  /** A quiz played to the end through the enabled clicks, and handed to
      `handleQuizComplete`, shows a whole percentage within 0-100, 100 when
      every question was answered correctly, and "Excellent Work!" exactly
      when at least 79.5 % were. */
  lemma CompletedQuizGrade(st: AppState, actions: seq<QuizInterface.Action>)
    requires |st.questions| >= 1
    requires QuizInterface.Admissible(st.questions, QuizInterface.Initial(), actions)
    requires QuizInterface.Run(st.questions, QuizInterface.Initial(), actions).report.Some?
    ensures var report := QuizInterface.Run(st.questions, QuizInterface.Initial(), actions).report.value;
      var done := HandleQuizComplete(st, report.score);
      var p := ResultPercentage(done.score, |done.questions|);
      && done.status == Completed
      && p.Whole? && p.value <= 100
      && (report.score == |st.questions| ==> p == Whole(100))
      && (ResultMessage(p) == Excellent <==> 200 * report.score >= 159 * |st.questions|)
  {
    var report := QuizInterface.Run(st.questions, QuizInterface.Initial(), actions).report.value;
    QuizInterface.ScoreCountsCorrectAnswers(st.questions, actions);
    MessageOfScore(report.score, |st.questions|);
  }
}
