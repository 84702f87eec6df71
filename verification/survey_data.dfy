/**
 * The records the survey stores keep: surveys with their ordered questions,
 * responses with their answer maps, and distribution links.
 * Timestamps are integers (milliseconds); ids are strings supplied by the caller.
 */
module SurveyData {
  import opened Wrappers

  /** The three question kinds the survey editor offers. */
  datatype QuestionType = MultipleChoice | Rating | Text

  /** `order` is the list length at the moment the question was added. */
  datatype Question = Question(
    id: string,
    text: string,
    kind: QuestionType,
    options: seq<string>,
    order: int)

  datatype Survey = Survey(
    id: string,
    title: string,
    description: string,
    createdBy: string,
    questions: seq<Question>,
    createdAt: int,
    updatedAt: int)

  /**
   * A stored response. `userEmail` is the field new submissions write;
   * `userId` is the field older records carried, absent on new ones.
   * `answers` maps question ids to the raw answer strings.
   */
  datatype Response = Response(
    id: string,
    surveyId: string,
    userEmail: string,
    userId: Option<string>,
    answers: map<string, string>,
    submittedAt: int)

  datatype Link = Link(
    id: string,
    surveyId: string,
    longLink: string,
    shortLink: string,
    createdAt: int)

  /** `response_data[question.id]`: the raw answer, or None when absent. */
  function AnswerTo(r: Response, questionId: string): Option<string> {
    if questionId in r.answers then Some(r.answers[questionId]) else None
  }

  /** JavaScript truthiness of an answer: present and not the empty string. */
  predicate Answered(a: Option<string>) {
    a.Some? && a.value != ""
  }

  /** The answers of every response to one question, in response order. */
  function AnswersTo(responses: seq<Response>, questionId: string): (a: seq<Option<string>>)
    ensures |a| == |responses|
    ensures forall i :: 0 <= i < |a| ==> a[i] == AnswerTo(responses[i], questionId)
  {
    seq(|responses|, i requires 0 <= i < |responses| => AnswerTo(responses[i], questionId))
  }
}
