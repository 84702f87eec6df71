/**
 * The survey-taking page: the answer map the form edits, the "all answered"
 * gate on submit, the answers each input can produce, and which screen the
 * page shows.
 */
module SurveyForm {
  import opened Wrappers
  import opened SurveyData
  import opened Text
  import QuestionStats
  import SurveyStore

  /** `handleAnswerChange`: set one question's answer and leave the others alone. */
  function SetAnswer(answers: map<string, string>, questionId: string, value: string): (after: map<string, string>)
    ensures questionId in after && after[questionId] == value
    ensures after.Keys == answers.Keys + {questionId}
    ensures forall k :: k in answers && k != questionId ==> after[k] == answers[k]
  {
    answers[questionId := value]
  }

  /** `survey.questions.every(q => answers[q.id])`: every question has a non-empty answer. */
  predicate AllAnswered(questions: seq<Question>, answers: map<string, string>) {
    forall i :: 0 <= i < |questions| ==> questions[i].id in answers && answers[questions[i].id] != ""
  }

  datatype SubmitOutcome = Incomplete | Submitted

  /**
   * `handleSubmit`: refuse with "Incomplete survey" unless every question is
   * answered; otherwise submit one response with the survey id, the user's id
   * and the answers.
   */
  function HandleSubmit(store: SurveyStore.Store, survey: Survey, answers: map<string, string>, userId: string,
                        id: string, now: int): (result: (SurveyStore.Store, SubmitOutcome))
    ensures result.1 == Submitted <==> AllAnswered(survey.questions, answers)
    ensures result.1 == Incomplete ==> result.0 == store
    ensures result.1 == Submitted ==> result.0 == SurveyStore.SubmitResponse(store, survey.id, userId, answers, id, now)
    ensures result.1 == Submitted ==> |result.0.responses| == |store.responses| + 1
  {
    if AllAnswered(survey.questions, answers) then
      (SurveyStore.SubmitResponse(store, survey.id, userId, answers, id, now), Submitted)
    else (store, Incomplete)
  }

  /** An empty text answer does not count: clearing a text box blocks submission. */
  lemma EmptyTextBlocksSubmit(store: SurveyStore.Store, survey: Survey, answers: map<string, string>,
                              userId: string, id: string, now: int, i: nat)
    requires i < |survey.questions|
    ensures HandleSubmit(store, survey, SetAnswer(answers, survey.questions[i].id, ""), userId, id, now).1 == Incomplete
  {
  }

  /** What a user can do to one question: pick an option, press a star, or type. */
  datatype Input = PickOption(index: nat) | PickRating(stars: nat) | Type(text: string)

  /** The inputs the page renders for a question of each kind. */
  predicate Offered(q: Question, input: Input) {
    match input
    case PickOption(k) => q.kind == MultipleChoice && k < |q.options|
    case PickRating(n) => q.kind == Rating && 1 <= n <= 5
    case Type(_) => q.kind == Text
  }

  /** The string an input stores: the option's text, the star count in decimal, or the typed text. */
  function InputValue(q: Question, input: Input): string
    requires Offered(q, input)
  {
    match input
    case PickOption(k) => q.options[k]
    case PickRating(n) => Decimal(n)
    case Type(t) => t
  }

  /**
   * A multiple-choice answer from the form is a declared option; a rating
   * answer is one of "1".."5" and parses back to its star count.
   */
  lemma FormAnswersAreWellFormed(q: Question, input: Input)
    requires Offered(q, input)
    ensures q.kind == MultipleChoice ==> InputValue(q, input) in q.options
    ensures q.kind == Rating ==>
      QuestionStats.IsRatingChoice(InputValue(q, input)) && ParseInt(InputValue(q, input)) == Some(input.stars)
  {
    if q.kind == Rating {
      ParseDecimal(input.stars);
    }
  }

  datatype Page = SurveyNotFound | AlreadyCompleted | Form

  predicate SurveyExists(store: SurveyStore.Store, surveyId: string) {
    exists i :: 0 <= i < |store.surveys| && store.surveys[i].id == surveyId
  }

  /** The screen the page opens on, using the stored completion check. */
  function PageFor(store: SurveyStore.Store, surveyId: string, userId: string): (p: Page)
    ensures p == SurveyNotFound <==> SurveyStore.FindSurvey(store, surveyId).None?
    ensures p == AlreadyCompleted <==>
      SurveyStore.FindSurvey(store, surveyId).Some? && SurveyStore.HasUserCompletedSurvey(store, surveyId, userId)
  {
    if !SurveyExists(store, surveyId) then SurveyNotFound
    else if SurveyStore.HasUserCompletedSurvey(store, surveyId, userId) then AlreadyCompleted
    else Form
  }

  /**
   * As written, a user who has just submitted is shown the form again on
   * the next visit: the completion check never sees the new response.
   */
  lemma ResubmissionStillOffered(store: SurveyStore.Store, survey: Survey, answers: map<string, string>,
                                 userId: string, id: string, now: int)
    requires PageFor(store, survey.id, userId) == Form
    requires AllAnswered(survey.questions, answers)
    ensures var (after, outcome) := HandleSubmit(store, survey, answers, userId, id, now);
      outcome == Submitted && PageFor(after, survey.id, userId) == Form
  {
    SurveyStore.SubmitDoesNotComplete(store, survey.id, userId, answers, id, now, survey.id, userId);
  }

  /** The screen the page opens on with the completion check reading the field submissions write. */
  function PageForCorrected(store: SurveyStore.Store, surveyId: string, userId: string): Page {
    if !SurveyExists(store, surveyId) then SurveyNotFound
    else if SurveyStore.HasUserCompletedSurveyByEmail(store, surveyId, userId) then AlreadyCompleted
    else Form
  }

  /** With the corrected check, a submission is followed by "Already Completed". */
  lemma SubmissionCompletes(store: SurveyStore.Store, survey: Survey, answers: map<string, string>,
                            userId: string, id: string, now: int)
    requires SurveyExists(store, survey.id)
    requires AllAnswered(survey.questions, answers)
    ensures var (after, outcome) := HandleSubmit(store, survey, answers, userId, id, now);
      outcome == Submitted && PageForCorrected(after, survey.id, userId) == AlreadyCompleted
  {
    SurveyStore.SubmitCompletesByEmail(store, survey.id, userId, answers, id, now);
  }
}
