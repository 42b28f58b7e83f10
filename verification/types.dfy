/** Records shared by every component of the quiz application (types.ts). */
module Types {

  /** A value that may be absent: TypeScript's `T | null` and `T | undefined`. */
  datatype Option<+T> = None | Some(value: T)

  /** The outcome of an operation that can be refused with a reason. */
  datatype Result<+T, +E> = Ok(value: T) | Err(error: E)

  /** `Question.id` is declared `number | string`. */
  datatype QuestionId = NumId(n: int) | StrId(s: string)

  /** One multiple-choice item. Nothing in the type forces four options or an
      in-range answer index: those are promises of the producers, and the CSV
      import does not keep the second one. */
  datatype Question = Question(
    id: QuestionId,
    questionText: string,
    options: seq<string>,
    correctAnswerIndex: int,
    explanation: string)

  /** A topic card; `id` is what the question bank is keyed by. */
  datatype TopicDef = TopicDef(
    id: string,
    title: string,
    description: string,
    iconName: string,
    color: string)

  datatype QuizStatus = Idle | Loading | Active | Completed | Error
}
