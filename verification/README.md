# Udan Bangla quiz core, modelled in Dafny

Udan Bangla is a browser quiz application for West Bengal school and
entrance-exam students. This project models the parts of it that are
sequential logic rather than markup:

- **QuizInterface**: the quiz-taking session (`components/QuizInterface.tsx`).
  - The state is an index, an optional selection, an answered flag and a score.
  - The three handlers are select, submit and next.
  - The render guards decide which buttons can be clicked at all.
- **App**: the application shell (`App.tsx`).
  - The two topic tables and the view's choice between them.
  - How `startQuiz` picks questions: as written it always asks the generator, with a prompt built from the topic and class, because the bank lookup is not awaited (see Findings); the corrected flow takes up to five shuffled bank questions when the topic has any (all of them when it has fewer than five).
  - The graded results screen and `resetQuiz`.
- **QuestionBank**: the question bank (`services/questionBank.ts`). These are filter, append, bulk append, delete-by-topic and count over one flat list of records.
- **AdminPanel**: the admin console's two ways of adding questions (`components/AdminPanel.tsx`). One is the manual-entry form check; the other is the CSV bulk import parser.
- **UserService**: the per-user stats update inside `updateUserStatsOnQuiz` (`services/userService.ts`).
  - A running average.
  - A last-five window of scores.
  - A per-subject upsert with question-weighted accuracy.
- **Types** (`types.ts`): the shared records.
- **Builtins**: the JavaScript built-ins the code relies on, with JavaScript's semantics.
  - `Math.round` on a non-negative ratio, `(2a + b) / (2b)` in integer division.
  - `trim` with the ECMAScript white-space set, and `split` on one character.
  - ASCII `toLowerCase` and `startsWith`.
  - `parseInt`, number-to-string, and `slice(-n)`.

Storage, timers, the clock, `Math.random`, the question generator and the
signed-in user are not modelled as effects. They become parameters:
- a stored item;
- a clock reading per record;
- a random draw;
- an arbitrary rearrangement for the shuffle;
- an optional generated list, where None means the request threw;
- a `signedIn` flag.

The quiz session is modelled in two layers. Its handlers are total
functions on a state. `Enabled` states the render guards:
- options are disabled once answered (line 95);
- Submit is shown only while unanswered and needs a selection (lines 118-121);
- Next is shown only once answered (line 126).

A run is a sequence of enabled clicks.

## Model

| member | source | states |
|---|---|---|
| QuizInterface.Initial | components/QuizInterface.tsx:12-15 | a session starts at question 0 with no selection, unanswered, score 0 |
| QuizInterface.OptionSelect | components/QuizInterface.tsx:19-22 | selecting after answering changes nothing; otherwise the selection becomes the clicked index and index, flag and score are untouched |
| QuizInterface.Submit | components/QuizInterface.tsx:24-31 | without a selection nothing changes; with one the question is answered and the score rises by one exactly when the selection is the correct index, else stays |
| QuizInterface.HandleNext | components/QuizInterface.tsx:33-42 | before the last question the index moves on by one and selection and flag are cleared; on the last it reports (score, number of questions) and the state stays |
| QuizInterface.Enabled | components/QuizInterface.tsx:95-128 | the render guards: options only while unanswered, Submit only while unanswered with a selection, Next only once answered, and the index in range for any of them |
| QuizInterface.Step | components/QuizInterface.tsx:19-42 | one click runs its handler; only Next can report, and select and submit leave the index where it is |
| QuizInterface.InitialInv | components/QuizInterface.tsx:12-17 | a session over at least one question starts in the invariant (index in range, answered implies a selection, score at most the submitted count) |
| QuizInterface.StepKeepsInv | components/QuizInterface.tsx:19-42 | every click the render allows keeps the invariant, never moves the index back or past the last question, and a report carries the question count and a score no larger |
| QuizInterface.LastSelectionWins | components/QuizInterface.tsx:19-22 | of two selections only the last counts |
| QuizInterface.DoubleSubmitCountsTwice | components/QuizInterface.tsx:24-31 | the handler itself does not check the answered flag: two submits of a correct answer add two and break the score bound, so the bound rests on the render guard |
| QuizInterface.CountCorrectBound | components/QuizInterface.tsx:28-30 | the number of correct locked answers never exceeds the number of locked answers |
| QuizInterface.RunTracks | components/QuizInterface.tsx:19-42 | along any run of enabled clicks, the score equals the number of correct answers locked in so far, one per question reached |
| QuizInterface.StepTracks | components/QuizInterface.tsx:95-133 | one enabled click locks at most the current question's answer and adds to the score exactly when that answer is correct |
| QuizInterface.ScoreCountsCorrectAnswers | components/QuizInterface.tsx:11-42 | from the initial state, under the render guards: score = correct locked answers <= submitted <= index + 1 <= N, and a completed run reports (score, N) |
| QuizInterface.RunReport | components/QuizInterface.tsx:38-41 | a run that completes reports the final score and the question count |
| QuestionBank.ReadStore | services/questionBank.ts:7-14 | a missing or unparsable store reads as the empty list, a parsed one as its records |
| QuestionBank.Keep | services/questionBank.ts:27-28 | the filter returns no more records than the store holds, each with the given outcome of the topic test |
| QuestionBank.KeepMembers | services/questionBank.ts:27-28 | a record is kept exactly when the store holds it and its topic test has the given outcome |
| QuestionBank.QuestionsForTopic | services/questionBank.ts:24-29 | the topic's records only, no more than the store holds; KeepMembers states which, KeepAppend that stored order is kept |
| QuestionBank.ClearTopic | services/questionBank.ts:62-67 | no record of the topic is left and the store does not grow; ClearTopicKeepsOthers states what remains |
| QuestionBank.TotalCount | services/questionBank.ts:69-72 | the number of stored records, which KeepPartition splits between a topic and the rest |
| QuestionBank.KeepAppend | services/questionBank.ts:28 | filtering keeps stored order: it commutes with appending |
| QuestionBank.KeepOccurrences | services/questionBank.ts:24-29 | a topic's questions and the store cleared of that topic split the store: each record occurs in the two together exactly as often as in the store |
| QuestionBank.OccurrencesSnoc | services/questionBank.ts:43 | appending a record adds one occurrence of it and of no other |
| QuestionBank.KeepPartition | services/questionBank.ts:24-72 | the sizes of a topic's questions and of the store cleared of it add up to the total count |
| QuestionBank.AssignId | services/questionBank.ts:38 | a truthy id is kept, a falsy one (0 or '') replaced by the generated one |
| QuestionBank.GeneratedId | services/questionBank.ts:38 | generated ids start with "q-" |
| QuestionBank.MakeRecord | services/questionBank.ts:36-41 | a record is the question with its id assigned, tagged with the topic and the creation time |
| QuestionBank.AddQuestion | services/questionBank.ts:31-45 | one record is appended, earlier records are unchanged, the new record is tagged with the topic and holds the question with only its id possibly replaced |
| QuestionBank.NewRecords | services/questionBank.ts:51-56 | the i-th new record comes from the i-th question, with an id generated from the clock and i |
| QuestionBank.BulkAdd | services/questionBank.ts:47-60 | the records are appended in input order after an unchanged store, each tagged with the topic and keeping its question's fields |
| QuestionBank.ClearTopicEmptiesTopic | services/questionBank.ts:62-67 | after clearing a topic it has no questions |
| QuestionBank.ClearTopicKeepsOthers | services/questionBank.ts:62-67 | clearing a topic leaves every other topic's questions as they were, in order |
| QuestionBank.ClearTopicIdempotent | services/questionBank.ts:62-67 | clearing twice is clearing once |
| QuestionBank.AddQuestionQueries | services/questionBank.ts:31-45 | adding a question appends it to its topic's questions, changes no other topic's, and raises the count by one |
| QuestionBank.BulkAddQueries | services/questionBank.ts:47-60 | bulk adding appends the new records to the topic's questions in input order, changes no other topic's, and raises the count by the input length |
| QuestionBank.KeepAll | services/questionBank.ts:51-56 | records all tagged with one topic are all of its questions and none of another's |
| AdminPanel.ManualQuestion | components/AdminPanel.tsx:48-61 | the form is refused with "Please fill in all fields" exactly when the text or some option is empty; otherwise the question has id 0, the given fields, and the default explanation when none was given |
| AdminPanel.ManualEntryGetsGeneratedId | components/AdminPanel.tsx:55-64 | a manually entered question always gets a generated "q-" id from the bank, since the form sends the falsy id 0 |
| AdminPanel.Columns | components/AdminPanel.tsx:101 | a row has as many fields as comma-separated pieces, field k being the k-th piece trimmed |
| AdminPanel.AnswerIndex | components/AdminPanel.tsx:109 | the value parseInt reads, or 0 when it reads NaN |
| AdminPanel.IsHeader | components/AdminPanel.tsx:96 | the first line is a header when, lower-cased, it starts with "question" |
| AdminPanel.DataRows | components/AdminPanel.tsx:91-97 | the lines of the trimmed content, less the first exactly when it is a header, in order |
| AdminPanel.ParseRow | components/AdminPanel.tsx:101-111 | a row yields a question exactly when it has six or more fields; the question has id 0, text from field 0, options from fields 1-4 in order, the parseInt-or-0 answer from field 5 and field 6 or '' as explanation |
| AdminPanel.ParseRows | components/AdminPanel.tsx:98-112 | no more questions than data rows, each with id 0 and four options; ParseRowsSingle and ParseRowsAppend state which |
| AdminPanel.ParseRowsSingle | components/AdminPanel.tsx:101-111 | one row contributes its parsed question when it has six or more fields, and nothing otherwise |
| AdminPanel.ParseRowsAppend | components/AdminPanel.tsx:98-112 | parsing two blocks of rows gives the questions of the first block, then those of the second: every row contributes in row order |
| AdminPanel.ParseCsv | components/AdminPanel.tsx:84-117 | empty content is refused before parsing; content yielding no question is refused after; otherwise the questions of the data rows, between one and the number of data rows |
| AdminPanel.CsvErrorMessage | components/AdminPanel.tsx:85-117 | the error notification text for empty content and for content with no valid question |
| AdminPanel.CsvUpload | components/AdminPanel.tsx:84-121 | a refused upload stores nothing and shows "Please enter CSV content" for empty content, "No valid questions found in CSV" when no row parses; a successful one adds every parsed question to the topic in row order, raises the count by their number and says how many |
| AdminPanel.Fields | components/AdminPanel.tsx:94 | an encodable question has the seven fields of the documented row format |
| AdminPanel.FieldsClean | components/AdminPanel.tsx:94 | every field of an encodable question survives trimming and splitting |
| AdminPanel.ParseRowOfFields | components/AdminPanel.tsx:101-111 | a row whose first seven fields are a question's parses back to that question |
| AdminPanel.ParseRowOfColumns | components/AdminPanel.tsx:103-111 | a row whose first seven trimmed fields are a question's fields parses to that question |
| AdminPanel.ColumnsOfFields | components/AdminPanel.tsx:101 | trimming leaves an encodable question's fields as they are |
| AdminPanel.AnswerOfField | components/AdminPanel.tsx:109 | the answer index written in decimal reads back as itself |
| AdminPanel.RowRoundTrip | components/AdminPanel.tsx:101-111 | an encodable question written as a row parses back unchanged |
| AdminPanel.ExtraFieldsDropped | components/AdminPanel.tsx:101-110 | text after a seventh comma is dropped, so a comma in an explanation truncates it |
| AdminPanel.SplitAfterJoin | components/AdminPanel.tsx:101 | splitting joined separator-free pieces followed by more text gives the pieces, then the split of the rest |
| AdminPanel.JoinAppend | components/AdminPanel.tsx:91 | joining two lists is joining each and putting a separator between |
| AdminPanel.OutOfRangeAnswerAccepted | components/AdminPanel.tsx:109 | an answer index of 4 or more is imported as given: nothing range-checks it |
| AdminPanel.EncodeRows | components/AdminPanel.tsx:91 | one row per question, in order |
| AdminPanel.RowShape | components/AdminPanel.tsx:91 | a row is non-empty, has no line break, and neither starts nor ends with white space |
| AdminPanel.JoinAvoids | components/AdminPanel.tsx:91 | a character absent from the pieces and different from the separator is absent from their join |
| AdminPanel.JoinFirst | components/AdminPanel.tsx:91 | a join starts with the first piece's first character, or the separator |
| AdminPanel.JoinLast | components/AdminPanel.tsx:91 | a join ends with the last piece's last character, or the separator |
| AdminPanel.JoinEdgesNonEmpty | components/AdminPanel.tsx:91 | a join of non-empty pieces starts with the first piece's first character and ends with the last piece's last |
| AdminPanel.JoinedTrimmed | components/AdminPanel.tsx:91 | joining non-empty pieces whose outer ends are not white space gives a non-empty text that trim leaves alone |
| AdminPanel.ParseEncodedRows | components/AdminPanel.tsx:98-112 | rows written from encodable questions parse back to those questions |
| AdminPanel.CsvLines | components/AdminPanel.tsx:91 | an encoded CSV is non-empty, and trimming and splitting on line breaks gives back its rows |
| AdminPanel.CsvRoundTrip | components/AdminPanel.tsx:84-112 | questions written out as CSV import back unchanged when the first does not look like a header |
| AdminPanel.HeaderLookalikeDropped | components/AdminPanel.tsx:96 | when the first question's text starts with "question" in any ASCII case, that question is taken for a header and lost |
| UserService.QuizPercentage | services/userService.ts:80 | the quiz's percentage is 0 for an empty quiz and within 0-100 when the score does not exceed the question count; QuizPercentageNearest gives its value |
| UserService.QuizPercentageNearest | services/userService.ts:80 | for a non-empty quiz the percentage is the whole number nearest to 100·score/total, halves up |
| UserService.RunningAverage | services/userService.ts:87-89 | the new average lies between the previous average and this quiz's percentage, and is that percentage on the first test; RunningAverageNearest gives its value |
| UserService.RunningAverageNearest | services/userService.ts:89 | the new average is the whole number nearest to (previous average·(n - 1) + percentage) / n, halves up |
| UserService.WeightedBetween | services/userService.ts:105-107 | a rounded weighted mean of two values lies between them |
| UserService.FindSubject | services/userService.ts:94 | the position of the first entry with that subject, or -1 exactly when there is none |
| UserService.MergeAccuracy | services/userService.ts:103-107 | the merged accuracy is a number exactly when the old one was and the totals are not both 0, and then lies between the old accuracy and this quiz's percentage; MergeAccuracyNearest gives its value |
| UserService.MergeAccuracyNearest | services/userService.ts:105-107 | a numeric merged accuracy is the whole number nearest to the question-weighted mean of the old accuracy and this quiz's percentage, halves up |
| UserService.UpsertSubject | services/userService.ts:93-113 | a new subject gets one appended entry with this quiz's percentage and count; a known subject has only its entry changed, its count summed and its accuracy merged |
| UserService.Carried | services/userService.ts:82-120 | the update starts from the previous document, or for a first quiz from no tests, average 0, rank 0, the free plan and empty lists |
| UserService.UpdatedStats | services/userService.ts:80-124 | tests attempted rises by one; recent scores are the old ones plus this percentage, last five kept, ending in it; rank, plan and weak chapters carry over or default; the target exam is WBJEE; the average is the running average over the new test count (the percentage on a first quiz), between the old average and the percentage |
| UserService.RecentScoresWindow | services/userService.ts:91 | the window holds one to five scores, ends with this quiz's percentage, and before it the latest earlier scores in order |
| UserService.UpsertInRange | services/userService.ts:105-107 | merging an in-range percentage keeps every subject accuracy within 0-100 |
| UserService.WindowInRange | services/userService.ts:91 | the last five of in-range scores are in range |
| UserService.UpdatedStatsInRange | services/userService.ts:80-124 | a quiz whose score does not exceed its count keeps every percentage of the document within 0-100 and the window at five or fewer |
| UserService.OtherSubjectsUntouched | services/userService.ts:93-113 | every other subject's entry is kept, the list grows by at most one, and the quiz's subject is in it afterwards |
| App.TopicIdsDistinct | App.tsx:15-82 | the nine topics of the combined list have pairwise distinct ids |
| App.TopicsForView | App.tsx:198-203 | the entrance-exam subjects exactly when the class is "WBJEE", the general subjects for any other class or none; always a non-empty part of the combined list |
| App.PromptTopic | App.tsx:133-138 | the prompt starts with the title; it adds the WBJEE suffix for WBJEE, class and board for another non-empty class, and is the bare title exactly when there is no class |
| App.PromptNamesTheClass | App.tsx:133-138 | different classes give different prompts for the same topic |
| App.BankQuestions | services/questionBank.ts:24-29 | the questions of a topic's records, in stored order |
| App.SelectQuestions | App.tsx:124-142 | bank questions are used exactly when the local list has any, taking the first five of the shuffle (all of it when shorter); otherwise the generator is asked for five questions on the prompt topic |
| App.PlanQuizAsWritten | App.tsx:122-124 | read without await, the bank check sees a promise and every quiz goes to the generator |
| App.BankIgnoredAsWritten | App.tsx:122-124 | a topic with a bank question is sent to the generator as written, but gets that question once the bank is awaited |
| App.PlanQuiz | App.tsx:122-142 | with M > 0 bank questions the quiz gets min(5, M) of them, none more often than the bank holds it; an empty bank asks the generator for five |
| App.PrefixSubMultiset | App.tsx:126-127 | a prefix holds no element more often than the whole sequence |
| App.StartQuizAsWritten | App.tsx:110-147 | as written: signed out only the sign-in dialog opens; signed in, only status, questions and topic may change, the topic is selected and the quiz goes active with the generated questions, or ends in ERROR with the old questions kept exactly when generation fails, whatever the bank holds |
| App.StartQuiz | App.tsx:110-147 | the corrected flow with the bank awaited: signed out only the sign-in dialog opens; signed in, only status, questions and topic may change, the topic is selected and the quiz goes active with min(5, M) of the M bank questions or the generated ones, or ends in ERROR exactly when the bank is empty and generation fails |
| App.StartQuizAgreesOnEmptyBank | App.tsx:122-147 | for a topic with no bank questions the written and the corrected flow settle in the same state |
| App.StartQuizBankDiffers | App.tsx:122-128 | with one bank question and a failing generator, the written flow ends in ERROR and the corrected one starts the quiz with that question |
| App.HandleQuizComplete | App.tsx:149-152 | the reported score is kept and the results show; nothing else changes |
| App.ResetQuiz | App.tsx:154-161 | questions emptied, score 0, no topic, status idle and the topics view; class choice and dialog kept |
| App.ResetQuizIdempotent | App.tsx:154-161 | resetting twice is resetting once, and the topics offered stay the same |
| App.ResultPercentage | App.tsx:414 | NaN exactly for 0 of 0 questions, Infinity exactly for a positive score over 0 questions; otherwise the whole percentage nearest to 100·score/N, halves up, within 0-100 when score <= N and 100 for a full score |
| App.ResultMessage | App.tsx:415-417 | "Excellent Work!" exactly from 80 and for Infinity, "Good Job!" exactly from 60 to 79, "Keep Practicing!" below 60 and for NaN |
| App.ResultMessageMonotone | App.tsx:414-417 | a higher score on the same quiz never earns a lesser headline |
| App.PercentageMonotone | App.tsx:414 | the rounded percentage grows with the score |
| App.MessageOfScore | App.tsx:414-417 | on a non-empty quiz the headline is "Excellent Work!" exactly when 200·score >= 159·N (79.5 %), and "Good Job!" exactly when 119·N <= 200·score < 159·N |
| App.CompletedQuizGrade | App.tsx:414-417 | a quiz played to the end under the render guards and handed to the shell shows a whole percentage within 0-100, 100 for a full score, and "Excellent Work!" exactly when at least 79.5 % of the answers were correct |
| Builtins.RoundNearest | services/userService.ts:80 | Math.round of a non-negative ratio gives the integer nearest to it, halves up |
| Builtins.Round | services/userService.ts:89 | Math.round of a non-negative ratio a/b, as (2a + b) div 2b; RoundNearest states its meaning |
| Builtins.RoundBetween | services/userService.ts:89 | a ratio between two integers rounds to a value between them |
| Builtins.RoundExact | services/userService.ts:89 | rounding an exact quotient gives it back |
| Builtins.Percentage | App.tsx:414 | a rounded percentage is at most 100 when the part does not exceed the whole, and 100 when they are equal |
| Builtins.PercentageNearest | services/userService.ts:80 | the rounded percentage is the whole number nearest to 100·part/whole |
| Builtins.TrimSpec | components/AdminPanel.tsx:91-101 | trim removes exactly the white space at both ends: what is left is a contiguous slice whose ends are not white space |
| Builtins.Trim | components/AdminPanel.tsx:91 | `trim`: leading then trailing white space removed; TrimSpec states the result |
| Builtins.IndexOf | components/AdminPanel.tsx:101 | for a character the text holds, the position of its first occurrence |
| Builtins.Split | components/AdminPanel.tsx:91-101 | split gives at least one piece and no piece holds the separator |
| Builtins.JoinSplit | components/AdminPanel.tsx:91-101 | joining the pieces of a split gives the text back |
| Builtins.SplitJoin | components/AdminPanel.tsx:91-101 | splitting a join of separator-free pieces gives the pieces back |
| Builtins.ToLowerCase | components/AdminPanel.tsx:96 | lower-casing keeps the length and maps each character |
| Builtins.NatToString | components/AdminPanel.tsx:121 | a number prints as a non-empty string of decimal digits without a leading zero |
| Builtins.NatToStringValue | components/AdminPanel.tsx:121 | the printed digits denote the number |
| Builtins.ParseIntNatToString | components/AdminPanel.tsx:109 | parseInt reads back any number written in decimal |
| Builtins.ParseInt | components/AdminPanel.tsx:109 | parseInt without a radix: leading white space skipped, one sign, a 0x prefix for base 16, the longest digit run read, NaN when there is none |
| Builtins.LastN | services/userService.ts:91 | slice(-n) for n > 0 keeps the last min(n, length) elements |

## Left out

- Storage: localStorage and Firestore reads and writes are left out. The JSON encoding of the bank, the simulated `setTimeout` delays and error logging are left out too. The store is a parameter, and stats documents are values.
- `Date.now`, `new Date().toISOString()` and `Math.random` are parameters. Their values are not modelled, so fresh ids are not proved unique.
- The question generator is a network call. Its answer is a parameter: any list of questions, unvalidated, or None for a thrown error.
- The shuffle (`sort(() => 0.5 - Math.random())`) is any rearrangement of the bank list. Its distribution is not modelled.
- Authentication, payments, the admin e-mail check, the profile view and every navigation handler except `resetQuiz` are left out. These are `goHome`, `goToClasses`, `goToProfile`, `goToAdmin` and `selectClass`. They are user-interface wiring around a simulated identity provider.
- The progress-bar width and the unrounded percentage of `recordQuizResult` are floating-point display values, so they are not modelled.
- Builtins.RoundNearest: the percentages are computed in floating point, as `(score / total) * 100` rounded, and the model rounds the exact rational. The two differ only when an exact half is approached from below by float error. No ratio with a denominator of 5 or less lands on a half, and the quiz uses 5 questions.
- Builtins.ToLowerCase: only ASCII letters are lowered. Outside ASCII, only U+0130 and U+212A lower to an ASCII letter ('i' and 'k'), and a text starting with a non-ASCII letter never starts with "question". So the header test is affected only for texts holding those two characters.
- Builtins.ParseInt: a digit string is read as an exact integer. JavaScript loses precision past 2^53 and gives exponent forms for very large values.
- AdminPanel.CsvUpload: the catch branch is left out. It shows "Failed to parse or upload CSV.", or the Firestore permission text, and it can be reached only through a storage failure inside the bulk add, which is not modelled.
- AdminPanel.ManualQuestion: the answer index is the result of `Number(...)` on the select's value. The form offers only 0-3, so NaN is not modelled.
- UserService.UpdatedStats: a stored document missing some fields, or holding non-numeric ones, is not modelled. Nor is the `merge: true` write keeping fields the update does not set. The previous document is a whole record or absent.
- Builtins.LastN: only positive window sizes are modelled; `slice(-0)` would return the whole list, and the one caller passes 5.
- QuizInterface: a session over an empty question list is not modelled. Rendering it reads past the end of the list, and the generator is the only source that could produce it.
- App: the class shown on the results and loading screens is display text and is not modelled.

## Findings

| source | as written | input that shows it | evidently intended | confidence | as-written member | corrected member |
|---|---|---|---|---|---|---|
| App.tsx:122-124 | `getQuestionsForTopic` is async but called without `await`, so `localQuestions.length` is undefined and `undefined > 0` is false: every quiz goes to the generator | a store holding one record of topic "polity", starting the "Indian Polity" quiz | the bank list is awaited and its questions used when there are any | high (not executed) | App.PlanQuizAsWritten, App.BankIgnoredAsWritten, App.StartQuizAsWritten | App.PlanQuiz, App.StartQuiz |
