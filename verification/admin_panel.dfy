/** The content-management console's data paths (components/AdminPanel.tsx):
    the manual-entry form check and record, and the CSV bulk import. Both hand
    their questions to the question bank. */
module AdminPanel {
  import opened Types
  import opened Builtins
  import QuestionBank

  // ---------------------------------------------------------------------------
  // Manual entry
  // ---------------------------------------------------------------------------

  /** The form state `manualQ`; the answer index comes from a select whose
      change handler already applies `Number(...)`. */
  datatype ManualForm = ManualForm(
    questionText: string,
    options: seq<string>,
    correctAnswerIndex: int,
    explanation: string)

  const FillAllFields := "Please fill in all fields"
  const NoExplanation := "No explanation provided."

  /** `handleManualSubmit` before the bank call: refused when the question text
      or any option is empty (no trimming: a blank-only field passes);
      otherwise a question with id 0 and the default explanation when none was
      given. */
  function ManualQuestion(f: ManualForm): (r: Result<Question, string>)
    ensures r.Err? <==> f.questionText == "" || exists k | 0 <= k < |f.options| :: f.options[k] == ""
    ensures r.Err? ==> r.error == FillAllFields
    ensures r.Ok? ==>
      && r.value.id == NumId(0)
      && r.value.questionText == f.questionText
      && r.value.options == f.options
      && r.value.correctAnswerIndex == f.correctAnswerIndex
      && r.value.explanation == (if f.explanation == "" then NoExplanation else f.explanation)
      && r.value.explanation != ""
  {
    if f.questionText == "" || exists k | 0 <= k < |f.options| :: f.options[k] == "" then
      Err(FillAllFields)
    else
      Ok(Question(NumId(0), f.questionText, f.options, f.correctAnswerIndex,
                  if f.explanation == "" then NoExplanation else f.explanation))
  }

  /** A manually entered question always gets a generated `q-...` id from the
      bank, since the form sends id 0, which is falsy. */
  lemma ManualEntryGetsGeneratedId(f: ManualForm, store: seq<QuestionBank.BankRecord>, t: string,
                                   now: QuestionBank.Stamp, rand: nat)
    requires ManualQuestion(f).Ok?
    ensures var r := QuestionBank.AddQuestion(store, t, ManualQuestion(f).value, now, rand);
      && r[|store|].question.id == StrId(QuestionBank.GeneratedId(now.millis, rand))
      && StartsWith(r[|store|].question.id.s, "q-")
  {
  }

  // ---------------------------------------------------------------------------
  // CSV import
  // ---------------------------------------------------------------------------

  datatype CsvError = EmptyContent | NoValidQuestions

  /** The text of the error notification for a refused upload. */
  function CsvErrorMessage(e: CsvError): (m: string)
  {
    match e
    case EmptyContent => "Please enter CSV content"
    case NoValidQuestions => "No valid questions found in CSV"
  }

  /** `row.split(',').map(c => c.trim())`. */
  function Columns(row: string): (cols: seq<string>)
    ensures |cols| == |Split(row, ',')|
    ensures forall k | 0 <= k < |cols| :: cols[k] == Trim(Split(row, ',')[k])
  {
    var parts := Split(row, ',');
    seq(|parts|, k requires 0 <= k < |parts| => Trim(parts[k]))
  }

  /** `parseInt(field) || 0`: NaN (and 0) become 0; no range check follows. */
  function AnswerIndex(field: string): (r: int)
    ensures ParseInt(field).None? ==> r == 0
    ensures ParseInt(field).Some? ==> r == ParseInt(field).value
    ensures r != 0 ==> ParseInt(field) == Some(r)
  {
    match ParseInt(field)
    case None => 0
    case Some(v) => v
  }

  /** One data row: skipped when it has fewer than six comma-separated fields;
      otherwise a question with id 0, text from field 0, the four options from
      fields 1-4, the answer index from field 5 and the explanation from field
      6 (or '' when there is none). Fields past the seventh are ignored. */
  function ParseRow(row: string): (r: Option<Question>)
    ensures r.Some? <==> |Columns(row)| >= 6
    ensures r.Some? ==>
      var cols := Columns(row);
      && r.value.id == NumId(0)
      && r.value.questionText == cols[0]
      && r.value.options == [cols[1], cols[2], cols[3], cols[4]]
      && r.value.correctAnswerIndex == AnswerIndex(cols[5])
      && r.value.explanation == (if |cols| > 6 then cols[6] else "")
  {
    var cols := Columns(row);
    if |cols| < 6 then None
    else
      Some(Question(NumId(0), cols[0], [cols[1], cols[2], cols[3], cols[4]],
                    AnswerIndex(cols[5]), if |cols| > 6 then cols[6] else ""))
  }

  /** The first line is a header exactly when, lower-cased, it starts with
      "question". */
  predicate IsHeader(row: string)
  {
    StartsWith(ToLowerCase(row), "question")
  }

  /** `csvContent.trim().split('\n')` without a leading header line. */
  function DataRows(content: string): (r: seq<string>)
    ensures var rows := Split(Trim(content), '\n');
      && |rows| - 1 <= |r| <= |rows|
      && r == rows[|rows| - |r|..]
      && (|r| < |rows| <==> IsHeader(rows[0]))
  {
    var rows := Split(Trim(content), '\n');
    if IsHeader(rows[0]) then rows[1..] else rows
  }

  /** The questions of the rows that have enough fields, in row order. */
  function ParseRows(rows: seq<string>): (qs: seq<Question>)
    ensures |qs| <= |rows|
    ensures forall i | 0 <= i < |qs| :: qs[i].id == NumId(0) && |qs[i].options| == 4
  {
    if |rows| == 0 then []
    else
      (match ParseRow(rows[0]) case Some(q) => [q] case None => []) + ParseRows(rows[1..])
  }

  /** One row contributes its question when it has six or more fields, and
      nothing otherwise. */
  lemma ParseRowsSingle(row: string)
    ensures ParseRows([row]) == if |Columns(row)| >= 6 then [ParseRow(row).value] else []
  {
    assert [row][1..] == [];
  }

  /** Parsing two blocks of rows is parsing each and keeping row order. */
  lemma {:induction false} ParseRowsAppend(a: seq<string>, b: seq<string>)
    ensures ParseRows(a + b) == ParseRows(a) + ParseRows(b)
  {
    if |a| > 0 {
      assert (a + b)[0] == a[0] && (a + b)[1..] == a[1..] + b;
      ParseRowsAppend(a[1..], b);
    } else {
      assert a + b == b;
    }
  }

  /** The parsing half of `handleCsvUpload`: empty content is refused before
      parsing, and content that yields no question is refused after it. */
  function ParseCsv(content: string): (r: Result<seq<Question>, CsvError>)
    ensures r == Err(EmptyContent) <==> content == ""
    ensures r == Err(NoValidQuestions) <==> content != "" && ParseRows(DataRows(content)) == []
    ensures r.Ok? ==> r.value == ParseRows(DataRows(content)) && 1 <= |r.value| <= |DataRows(content)|
  {
    if content == "" then Err(EmptyContent)
    else
      var qs := ParseRows(DataRows(content));
      if |qs| == 0 then Err(NoValidQuestions) else Ok(qs)
  }

  /** The bank after an upload and the notification shown. */
  datatype Upload = Upload(store: seq<QuestionBank.BankRecord>, notice: Result<string, string>)

  /** `handleCsvUpload`: parse, then bulk-add to the selected topic. A refused
      upload stores nothing; a successful one adds every parsed question to
      the topic, in row order, and says how many. */
  function CsvUpload(store: seq<QuestionBank.BankRecord>, topicId: string, content: string,
                     clock: nat -> QuestionBank.Stamp): (u: Upload)
    ensures content == "" ==> u.store == store && u.notice == Err("Please enter CSV content")
    ensures ParseCsv(content) == Err(NoValidQuestions) ==>
      u.store == store && u.notice == Err("No valid questions found in CSV")
    ensures ParseCsv(content).Ok? ==>
      var qs := ParseCsv(content).value;
      && QuestionBank.TotalCount(u.store) == QuestionBank.TotalCount(store) + |qs|
      && QuestionBank.QuestionsForTopic(u.store, topicId)
           == QuestionBank.QuestionsForTopic(store, topicId) + QuestionBank.NewRecords(topicId, qs, clock)
      && u.notice == Ok("Uploaded " + NatToString(|qs|) + " questions successfully")
  {
    match ParseCsv(content)
    case Err(e) => Upload(store, Err(CsvErrorMessage(e)))
    case Ok(qs) =>
      QuestionBank.BulkAddQueries(store, topicId, qs, clock, topicId);
      Upload(QuestionBank.BulkAdd(store, topicId, qs, clock),
             Ok("Uploaded " + NatToString(|qs|) + " questions successfully"))
  }

  // ---------------------------------------------------------------------------
  // Round trips through the row format
  // ---------------------------------------------------------------------------

  /** A field the format can carry: no comma, no line break, no surrounding
      whitespace. */
  predicate CleanField(f: string)
  {
    ',' !in f && '\n' !in f && Trim(f) == f
  }

  /** A question the format can carry: four clean options, clean text and
      explanation, a non-negative answer index, and the id 0 every parsed
      question gets. Nothing bounds the answer index by the option count. */
  predicate Encodable(q: Question)
  {
    && q.id == NumId(0)
    && |q.options| == 4
    && CleanField(q.questionText)
    && (forall k | 0 <= k < 4 :: CleanField(q.options[k]))
    && q.correctAnswerIndex >= 0
    && CleanField(q.explanation)
  }

  function Fields(q: Question): (fs: seq<string>)
    requires |q.options| == 4 && q.correctAnswerIndex >= 0
    ensures |fs| == 7
  {
    [q.questionText] + q.options + [NatToString(q.correctAnswerIndex), q.explanation]
  }

  /** The row `text,opt1,opt2,opt3,opt4,answer,explanation`. */
  function EncodeRow(q: Question): (row: string)
    requires Encodable(q)
  {
    Join(Fields(q), ',')
  }

  lemma FieldsClean(q: Question)
    requires Encodable(q)
    ensures forall k | 0 <= k < 7 :: CleanField(Fields(q)[k])
  {
    var d := NatToString(q.correctAnswerIndex);
    assert forall k | 0 <= k < |d| :: !IsWhitespace(d[k]) && d[k] != ',' && d[k] != '\n' by {
      forall k | 0 <= k < |d| ensures !IsWhitespace(d[k]) && d[k] != ',' && d[k] != '\n' {
        assert IsDecimalDigit(d[k]);
      }
    }
    TrimIdentity(d);
  }

  /** A row whose first seven fields are those of an encodable question parses
      to that question, whatever follows. */
  lemma ParseRowOfFields(row: string, q: Question)
    requires Encodable(q)
    requires |Split(row, ',')| >= 7 && Split(row, ',')[..7] == Fields(q)
    ensures ParseRow(row) == Some(q)
  {
    ColumnsOfFields(row, q);
    ParseRowOfColumns(row, q);
  }

  /** A row whose first seven trimmed fields are a question's fields parses to
      that question. */
  lemma ParseRowOfColumns(row: string, q: Question)
    requires q.id == NumId(0) && |q.options| == 4 && q.correctAnswerIndex >= 0
    requires |Columns(row)| >= 7 && forall k | 0 <= k < 7 :: Columns(row)[k] == Fields(q)[k]
    ensures ParseRow(row) == Some(q)
  {
    var cols := Columns(row);
    var o := q.options;
    assert Fields(q) == [q.questionText, o[0], o[1], o[2], o[3], NatToString(q.correctAnswerIndex), q.explanation];
    assert cols[0] == q.questionText && cols[6] == q.explanation;
    assert [cols[1], cols[2], cols[3], cols[4]] == o;
    assert AnswerIndex(cols[5]) == q.correctAnswerIndex by {
      AnswerOfField(q.correctAnswerIndex);
    }
  }

  /** Trimming leaves the clean fields of an encodable question as they are. */
  lemma ColumnsOfFields(row: string, q: Question)
    requires Encodable(q)
    requires |Split(row, ',')| >= 7 && Split(row, ',')[..7] == Fields(q)
    ensures |Columns(row)| >= 7 && forall k | 0 <= k < 7 :: Columns(row)[k] == Fields(q)[k]
  {
    var fs := Fields(q);
    FieldsClean(q);
    forall k | 0 <= k < 7 ensures Columns(row)[k] == fs[k] {
      assert Split(row, ',')[k] == fs[k];
    }
  }

  /** The answer field written in decimal reads back as the index. */
  lemma AnswerOfField(n: nat)
    ensures AnswerIndex(NatToString(n)) == n
  {
    ParseIntNatToString(n);
  }

  /** Every encodable question survives being written as a row and parsed
      back, whatever its answer index: 7 or 12 come back as 7 or 12. */
  lemma RowRoundTrip(q: Question)
    requires Encodable(q)
    ensures ParseRow(EncodeRow(q)) == Some(q)
  {
    FieldsClean(q);
    SplitJoin(Fields(q), ',');
    ParseRowOfFields(EncodeRow(q), q);
  }

  /** Anything after the seventh field is dropped: an explanation that itself
      contains commas keeps only its text up to the first one. */
  lemma ExtraFieldsDropped(q: Question, rest: string)
    requires Encodable(q)
    ensures ParseRow(EncodeRow(q) + [','] + rest) == Some(q)
  {
    var fs := Fields(q);
    FieldsClean(q);
    SplitAfterJoin(fs, rest, ',');
    assert (fs + Split(rest, ','))[..7] == fs;
    ParseRowOfFields(EncodeRow(q) + [','] + rest, q);
  }

  /** Splitting separator-free pieces joined and followed by more text gives
      the pieces, then the pieces of that text. */
  lemma SplitAfterJoin(parts: seq<string>, rest: string, sep: char)
    requires |parts| >= 1
    requires forall k | 0 <= k < |parts| :: sep !in parts[k]
    ensures Split(Join(parts, sep) + [sep] + rest, sep) == parts + Split(rest, sep)
  {
    var all := parts + Split(rest, sep);
    JoinSplit(rest, sep);
    JoinAppend(parts, Split(rest, sep), sep);
    SplitJoin(all, sep);
  }

  lemma {:induction false} JoinAppend(a: seq<string>, b: seq<string>, sep: char)
    requires |a| >= 1 && |b| >= 1
    ensures Join(a + b, sep) == Join(a, sep) + [sep] + Join(b, sep)
  {
    if |a| > 1 {
      assert (a + b)[1..] == a[1..] + b;
      JoinAppend(a[1..], b, sep);
    } else {
      assert (a + b)[1..] == b;
    }
  }

  /** An answer index outside the four options is stored as given: the import
      does not range-check it. */
  lemma OutOfRangeAnswerAccepted(text: string, opts: seq<string>, n: nat)
    requires |opts| == 4 && n >= 4
    requires Encodable(Question(NumId(0), text, opts, n, ""))
    ensures var q := ParseRow(EncodeRow(Question(NumId(0), text, opts, n, "")));
      q.Some? && q.value.correctAnswerIndex == n && q.value.correctAnswerIndex >= |q.value.options|
  {
    RowRoundTrip(Question(NumId(0), text, opts, n, ""));
  }

  // ---------------------------------------------------------------------------
  // Round trip through a whole CSV text
  // ---------------------------------------------------------------------------

  function EncodeRows(qs: seq<Question>): (rows: seq<string>)
    requires forall i | 0 <= i < |qs| :: Encodable(qs[i])
    ensures |rows| == |qs|
    ensures forall i | 0 <= i < |qs| :: rows[i] == EncodeRow(qs[i])
  {
    seq(|qs|, i requires 0 <= i < |qs| => EncodeRow(qs[i]))
  }

  /** One row per question, separated by line breaks. */
  function EncodeCsv(qs: seq<Question>): (csv: string)
    requires |qs| >= 1 && forall i | 0 <= i < |qs| :: Encodable(qs[i])
  {
    Join(EncodeRows(qs), '\n')
  }

  /** A row is non-empty, has no line break, and neither starts nor ends with
      whitespace. */
  lemma RowShape(q: Question)
    requires Encodable(q)
    ensures |EncodeRow(q)| > 0 && '\n' !in EncodeRow(q)
    ensures !IsWhitespace(EncodeRow(q)[0]) && !IsWhitespace(EncodeRow(q)[|EncodeRow(q)| - 1])
  {
    var fs := Fields(q);
    FieldsClean(q);
    TrimSpec(fs[0]);
    TrimSpec(fs[6]);
    JoinAvoids(fs, ',', '\n');
    JoinFirst(fs, ',');
    JoinLast(fs, ',');
  }

  lemma {:induction false} JoinAvoids(parts: seq<string>, sep: char, c: char)
    requires |parts| >= 1 && c != sep
    requires forall k | 0 <= k < |parts| :: c !in parts[k]
    ensures c !in Join(parts, sep)
  {
    if |parts| > 1 {
      JoinAvoids(parts[1..], sep, c);
    }
  }

  lemma JoinFirst(parts: seq<string>, sep: char)
    requires |parts| >= 2
    ensures |Join(parts, sep)| > 0
    ensures Join(parts, sep)[0] == if |parts[0]| > 0 then parts[0][0] else sep
  {
  }

  lemma {:induction false} JoinLast(parts: seq<string>, sep: char)
    requires |parts| >= 2
    ensures |Join(parts, sep)| > 0
    ensures var j := Join(parts, sep); var l := parts[|parts| - 1];
      j[|j| - 1] == if |l| > 0 then l[|l| - 1] else sep
  {
    if |parts| > 2 {
      JoinLast(parts[1..], sep);
    }
  }

  lemma {:induction false} JoinEdgesNonEmpty(parts: seq<string>, sep: char)
    requires |parts| >= 1
    requires forall k | 0 <= k < |parts| :: |parts[k]| > 0
    ensures var j := Join(parts, sep); var l := parts[|parts| - 1];
      |j| > 0 && j[0] == parts[0][0] && j[|j| - 1] == l[|l| - 1]
  {
    if |parts| >= 2 {
      JoinFirst(parts, sep);
      JoinLast(parts, sep);
    }
  }

  lemma {:induction false} ParseEncodedRows(qs: seq<Question>)
    requires forall i | 0 <= i < |qs| :: Encodable(qs[i])
    ensures ParseRows(EncodeRows(qs)) == qs
  {
    if |qs| > 0 {
      RowRoundTrip(qs[0]);
      assert EncodeRows(qs)[1..] == EncodeRows(qs[1..]);
      ParseEncodedRows(qs[1..]);
    }
  }

  /** The line structure of an encoded CSV: its trimmed text is itself and it
      splits into exactly the encoded rows. */
  lemma CsvLines(qs: seq<Question>)
    requires |qs| >= 1 && forall i | 0 <= i < |qs| :: Encodable(qs[i])
    ensures EncodeCsv(qs) != ""
    ensures Split(Trim(EncodeCsv(qs)), '\n') == EncodeRows(qs)
  {
    var rows := EncodeRows(qs);
    forall k | 0 <= k < |rows| ensures |rows[k]| > 0 && '\n' !in rows[k] {
      RowShape(qs[k]);
    }
    RowShape(qs[0]);
    RowShape(qs[|qs| - 1]);
    JoinedTrimmed(rows, '\n');
    SplitJoin(rows, '\n');
  }

  /** Joining non-empty parts whose outer ends are not whitespace gives a
      non-empty text that trimming leaves alone. */
  lemma JoinedTrimmed(parts: seq<string>, sep: char)
    requires |parts| >= 1 && forall k | 0 <= k < |parts| :: |parts[k]| > 0
    requires !IsWhitespace(parts[0][0])
    requires var l := parts[|parts| - 1]; !IsWhitespace(l[|l| - 1])
    ensures Join(parts, sep) != "" && Trim(Join(parts, sep)) == Join(parts, sep)
  {
    JoinEdgesNonEmpty(parts, sep);
    TrimIdentity(Join(parts, sep));
  }

  /** Questions written out as CSV rows import back unchanged, provided the
      first question's text does not look like a header. */
  lemma CsvRoundTrip(qs: seq<Question>)
    requires |qs| >= 1 && forall i | 0 <= i < |qs| :: Encodable(qs[i])
    requires !IsHeader(EncodeRow(qs[0]))
    ensures ParseCsv(EncodeCsv(qs)) == Ok(qs)
  {
    CsvLines(qs);
    ParseEncodedRows(qs);
  }

  /** The header rule looks only at the text: when the first question's text
      starts with "question" in any letter case, that question is taken for a
      header and silently lost, and only the rest are imported. */
  lemma HeaderLookalikeDropped(qs: seq<Question>)
    requires |qs| >= 2 && forall i | 0 <= i < |qs| :: Encodable(qs[i])
    requires IsHeader(EncodeRow(qs[0]))
    ensures ParseCsv(EncodeCsv(qs)) == Ok(qs[1..])
  {
    CsvLines(qs);
    assert EncodeRows(qs)[1..] == EncodeRows(qs[1..]);
    ParseEncodedRows(qs[1..]);
  }
}
