/** The question bank (services/questionBank.ts): one flat list of stored
    records, each a question tagged with its topic id and creation time. The
    browser storage, the simulated delays and the clock are outside the model:
    the stored item, the clock readings and the random draw are parameters. */
module QuestionBank {
  import opened Types
  import Builtins

  /** A stored record: the question with its final id, its topic and the ISO
      creation time. */
  datatype BankRecord = BankRecord(question: Question, topicId: string, createdAt: string)

  /** What `localStorage.getItem` + `JSON.parse` gave: nothing (null or the
      empty string), text that does not parse, or a parsed list. */
  datatype StoredItem = Missing | Unparsable | Parsed(records: seq<BankRecord>)

  /** One reading of the clock: `Date.now()` and `new Date().toISOString()`. */
  datatype Stamp = Stamp(millis: nat, iso: string)

  /** `getStore`: a missing or unparsable store reads as the empty list. */
  function ReadStore(item: StoredItem): (store: seq<BankRecord>)
    ensures item.Parsed? ==> store == item.records
    ensures !item.Parsed? ==> store == []
  {
    match item
    case Parsed(records) => records
    case _ => []
  }

  /** The records whose topic test `topicId == t` comes out as `matching`, in
      stored order: `filter(q => q.topicId === t)` for true and
      `filter(q => q.topicId !== t)` for false. */
  function Keep(store: seq<BankRecord>, t: string, matching: bool): (r: seq<BankRecord>)
    ensures |r| <= |store|
    ensures forall i | 0 <= i < |r| :: (r[i].topicId == t) == matching
  {
    if |store| == 0 then []
    else
      var last := store[|store| - 1];
      Keep(store[..|store| - 1], t, matching) + if (last.topicId == t) == matching then [last] else []
  }

  /** The filter keeps exactly the records of the store whose topic test has
      the given outcome. */
  lemma {:induction false} KeepMembers(store: seq<BankRecord>, t: string, matching: bool)
    ensures forall x :: x in Keep(store, t, matching) <==> x in store && (x.topicId == t) == matching
  {
    if |store| > 0 {
      var init, last := store[..|store| - 1], store[|store| - 1];
      KeepMembers(init, t, matching);
      assert store == init + [last];
    }
  }

  /** `getQuestionsForTopic`: records of topic t only, never more than the
      store holds. */
  function QuestionsForTopic(store: seq<BankRecord>, t: string): (r: seq<BankRecord>)
    ensures |r| <= |store|
    ensures forall i | 0 <= i < |r| :: r[i].topicId == t
  {
    Keep(store, t, true)
  }

  /** `clearTopicQuestions`: the store without the records of topic t. */
  function ClearTopic(store: seq<BankRecord>, t: string): (r: seq<BankRecord>)
    ensures |r| <= |store|
    ensures forall i | 0 <= i < |r| :: r[i].topicId != t
  {
    Keep(store, t, false)
  }

  /** `getTotalQuestionCount`. */
  function TotalCount(store: seq<BankRecord>): (n: nat)
  {
    |store|
  }

  /** JavaScript truthiness of an id: 0 and '' are falsy. */
  predicate IsTruthy(id: QuestionId)
  {
    match id
    case NumId(n) => n != 0
    case StrId(s) => s != ""
  }

  /** `question.id || generated`: a truthy id is kept, a falsy one replaced. */
  function AssignId(id: QuestionId, generated: string): (r: QuestionId)
    ensures IsTruthy(id) ==> r == id
    ensures !IsTruthy(id) ==> r == StrId(generated)
  {
    if IsTruthy(id) then id else StrId(generated)
  }

  /** The id text `q-${millis}-${suffix}` the bank generates. */
  function GeneratedId(millis: nat, suffix: nat): (s: string)
    ensures Builtins.StartsWith(s, "q-")
  {
    "q-" + Builtins.NatToString(millis) + "-" + Builtins.NatToString(suffix)
  }

  /** The record stored for a question: its fields with the id assigned, the
      topic, and the creation time. */
  function MakeRecord(t: string, q: Question, generated: string, createdAt: string): (r: BankRecord)
    ensures r.topicId == t && r.createdAt == createdAt
    ensures r.question == q.(id := AssignId(q.id, generated))
  {
    BankRecord(q.(id := AssignId(q.id, generated)), t, createdAt)
  }

  /** `addQuestionToBank(t, q)`: one record appended, tagged with t; `rand` is
      `Math.floor(Math.random() * 1000)`. */
  function AddQuestion(store: seq<BankRecord>, t: string, q: Question, now: Stamp, rand: nat): (r: seq<BankRecord>)
    ensures |r| == |store| + 1 && r[..|store|] == store
    ensures r[|store|].topicId == t && r[|store|].createdAt == now.iso
    ensures r[|store|].question.(id := q.id) == q
    ensures IsTruthy(q.id) ==> r[|store|].question.id == q.id
    ensures !IsTruthy(q.id) ==> r[|store|].question.id == StrId(GeneratedId(now.millis, rand))
  {
    store + [MakeRecord(t, q, GeneratedId(now.millis, rand), now.iso)]
  }

  /** The records `bulkAddQuestionsToBank` builds: the i-th from the i-th
      question, with the clock read once per record. */
  function NewRecords(t: string, qs: seq<Question>, clock: nat -> Stamp): (r: seq<BankRecord>)
    ensures |r| == |qs|
    ensures forall i | 0 <= i < |qs| ::
      r[i] == MakeRecord(t, qs[i], GeneratedId(clock(i).millis, i), clock(i).iso)
  {
    seq(|qs|, i requires 0 <= i < |qs| => MakeRecord(t, qs[i], GeneratedId(clock(i).millis, i), clock(i).iso))
  }

  /** `bulkAddQuestionsToBank(t, qs)`: the records appended in input order. */
  function BulkAdd(store: seq<BankRecord>, t: string, qs: seq<Question>, clock: nat -> Stamp): (r: seq<BankRecord>)
    ensures |r| == |store| + |qs| && r[..|store|] == store
    ensures forall i | 0 <= i < |qs| ::
      && r[|store| + i].topicId == t
      && r[|store| + i].question.(id := qs[i].id) == qs[i]
      && (IsTruthy(qs[i].id) ==> r[|store| + i].question.id == qs[i].id)
  {
    var added := NewRecords(t, qs, clock);
    assert forall i | 0 <= i < |qs| :: (store + added)[|store| + i] == added[i];
    store + added
  }

  // ---------------------------------------------------------------------------
  // What each operation does to the per-topic queries and the count
  // ---------------------------------------------------------------------------

  /** Filtering commutes with appending: it keeps stored order. */
  lemma {:induction false} KeepAppend(a: seq<BankRecord>, b: seq<BankRecord>, t: string, matching: bool)
    ensures Keep(a + b, t, matching) == Keep(a, t, matching) + Keep(b, t, matching)
    decreases |b|
  {
    if |b| > 0 {
      var b', y := b[..|b| - 1], b[|b| - 1];
      var tail := if (y.topicId == t) == matching then [y] else [];
      assert (a + b)[..|a + b| - 1] == a + b' && (a + b)[|a + b| - 1] == y;
      assert Keep(a + b, t, matching) == Keep(a + b', t, matching) + tail;
      assert Keep(b, t, matching) == Keep(b', t, matching) + tail;
      KeepAppend(a, b', t, matching);
      assert Keep(a, t, matching) + Keep(b', t, matching) + tail
        == Keep(a, t, matching) + (Keep(b', t, matching) + tail);
    } else {
      assert a + b == a;
    }
  }

  /** How many times a record occurs in a list. */
  function Occurrences(records: seq<BankRecord>, x: BankRecord): (n: nat)
  {
    if |records| == 0 then 0
    else Occurrences(records[..|records| - 1], x) + if records[|records| - 1] == x then 1 else 0
  }

  lemma OccurrencesSnoc(records: seq<BankRecord>, y: BankRecord, x: BankRecord)
    ensures Occurrences(records + [y], x) == Occurrences(records, x) + if y == x then 1 else 0
  {
    assert (records + [y])[..|records|] == records;
  }

  /** A topic's questions and the store cleared of that topic partition the
      store: each record occurs in the two together exactly as often as in the
      store. */
  lemma {:induction false} KeepOccurrences(store: seq<BankRecord>, t: string, x: BankRecord)
    ensures Occurrences(QuestionsForTopic(store, t), x) + Occurrences(ClearTopic(store, t), x)
         == Occurrences(store, x)
  {
    if |store| > 0 {
      var init := store[..|store| - 1];
      var last := store[|store| - 1];
      var yes, no := Keep(init, t, true), Keep(init, t, false);
      KeepOccurrences(init, t, x);
      if last.topicId == t {
        assert Keep(store, t, true) == yes + [last] && Keep(store, t, false) == no;
        OccurrencesSnoc(yes, last, x);
      } else {
        assert Keep(store, t, true) == yes && Keep(store, t, false) == no + [last];
        OccurrencesSnoc(no, last, x);
      }
    }
  }

  /** The sizes of a topic's questions and of the rest add up to the count. */
  lemma {:induction false} KeepPartition(store: seq<BankRecord>, t: string)
    ensures |QuestionsForTopic(store, t)| + |ClearTopic(store, t)| == TotalCount(store)
  {
    if |store| > 0 {
      KeepPartition(store[..|store| - 1], t);
    }
  }

  /** After `clearTopicQuestions(t)` the topic has no questions. */
  lemma {:induction false} ClearTopicEmptiesTopic(store: seq<BankRecord>, t: string)
    ensures QuestionsForTopic(ClearTopic(store, t), t) == []
  {
    if |store| > 0 {
      var init := store[..|store| - 1];
      var last := store[|store| - 1];
      ClearTopicEmptiesTopic(init, t);
      KeepAppend(Keep(init, t, false), if last.topicId != t then [last] else [], t, true);
    }
  }

  /** `clearTopicQuestions(t)` leaves every other topic's questions as they were. */
  lemma {:induction false} ClearTopicKeepsOthers(store: seq<BankRecord>, t: string, u: string)
    requires u != t
    ensures QuestionsForTopic(ClearTopic(store, t), u) == QuestionsForTopic(store, u)
  {
    if |store| > 0 {
      var init := store[..|store| - 1];
      var last := store[|store| - 1];
      ClearTopicKeepsOthers(init, t, u);
      KeepAppend(Keep(init, t, false), if last.topicId != t then [last] else [], u, true);
    }
  }

  /** Clearing a topic twice is clearing it once. */
  lemma {:induction false} ClearTopicIdempotent(store: seq<BankRecord>, t: string)
    ensures ClearTopic(ClearTopic(store, t), t) == ClearTopic(store, t)
  {
    if |store| > 0 {
      var init := store[..|store| - 1];
      var last := store[|store| - 1];
      ClearTopicIdempotent(init, t);
      KeepAppend(Keep(init, t, false), if last.topicId != t then [last] else [], t, false);
    }
  }

  /** `addQuestionToBank(t, q)` adds its record to topic t's questions, at the
      end, and to no other topic's. */
  lemma AddQuestionQueries(store: seq<BankRecord>, t: string, q: Question, now: Stamp, rand: nat, u: string)
    ensures var r := AddQuestion(store, t, q, now, rand);
      QuestionsForTopic(r, u) == QuestionsForTopic(store, u) + if u == t then [r[|store|]] else []
    ensures TotalCount(AddQuestion(store, t, q, now, rand)) == TotalCount(store) + 1
  {
  }

  /** `bulkAddQuestionsToBank(t, qs)` adds its records to topic t's questions in
      input order, to no other topic's, and raises the count by |qs|. */
  lemma BulkAddQueries(store: seq<BankRecord>, t: string, qs: seq<Question>, clock: nat -> Stamp, u: string)
    ensures var added := NewRecords(t, qs, clock);
      QuestionsForTopic(BulkAdd(store, t, qs, clock), u)
        == QuestionsForTopic(store, u) + if u == t then added else []
    ensures TotalCount(BulkAdd(store, t, qs, clock)) == TotalCount(store) + |qs|
  {
    var added := NewRecords(t, qs, clock);
    KeepAppend(store, added, u, true);
    KeepAll(added, t);
  }

  /** A list whose records all belong to topic t is all of t's questions and none
      of any other topic's. */
  lemma {:induction false} KeepAll(records: seq<BankRecord>, t: string)
    requires forall i | 0 <= i < |records| :: records[i].topicId == t
    ensures Keep(records, t, true) == records
    ensures forall u | u != t :: Keep(records, u, true) == []
  {
    if |records| > 0 {
      KeepAll(records[..|records| - 1], t);
      assert records == records[..|records| - 1] + [records[|records| - 1]];
    }
  }
}
