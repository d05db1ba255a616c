/** Shared vocabulary of the quiz: the failure-carrying result type, the ways a run
    can end abnormally, and the two records that flow between the stages. */
module Types {

  /** Either a value or the reason the run stopped. */
  datatype Result<+T, +E> = Success(value: T) | Failure(error: E) {
    predicate IsFailure() {
      Failure?
    }

    function PropagateFailure<U>(): Result<U, E>
      requires Failure?
    {
      Failure(error)
    }

    function Extract(): T
      requires Success?
    {
      value
    }
  }

  /** The abnormal ends of a run: the process exit after a reader error and the two panics. */
  datatype Error =
    | MalformedXml(message: string)      // parse_data prints the reader error and exits with 1
    | UnhandledProperty(dataType: string) // generate_questions panics on a tag it does not know
    | OptionNotDigit                      // run_game: char::from_digit fails for an option value >= 9

  /** One leaf element of the markup: its local tag name and the text seen last. */
  datatype DataPiece = DataPiece(dataType: string, data: string)

  /** A quiz question as built from one block of pieces. */
  datatype Question = Question(text: string, answer: string, wrongAnswers: seq<string>)

  /** The three tag names the question builder understands. */
  const PromptTag: string := "prompt"
  const CorrectTag: string := "correctAnswer"
  const IncorrectTag: string := "incorrectAnswers"
}
