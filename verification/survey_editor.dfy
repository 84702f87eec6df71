/**
 * The survey editor's list operations over the draft questions, and the
 * submit step that refuses an empty survey.
 */
module SurveyEditor {
  import opened SurveyData
  import opened Seqs
  import SurveyStore

  /** The draft every new question starts from: empty text, multiple choice, two empty options. */
  function BlankQuestion(id: string, order: int): Question {
    Question(id, "", MultipleChoice, ["", ""], order)
  }

  /** `addQuestion`: append a blank question whose `order` is the current number of questions. */
  function AddQuestion(questions: seq<Question>, id: string): (after: seq<Question>)
    ensures |after| == |questions| + 1
    ensures after[..|questions|] == questions
    ensures var q := after[|questions|];
      q.id == id && q.text == "" && q.kind == MultipleChoice && q.options == ["", ""] && q.order == |questions|
  {
    questions + [BlankQuestion(id, |questions|)]
  }

  /** `removeQuestion`: drop the questions with that id; the others keep their place and their `order`. */
  function RemoveQuestion(questions: seq<Question>, id: string): (after: seq<Question>)
    ensures forall q :: q in after <==> q in questions && q.id != id
  {
    Filter(questions, (q: Question) => q.id != id)
  }

  /**
   * `order` is not renumbered: after adding two questions and removing the
   * first, the remaining question still says it is at position 1.
   */
  lemma RemoveLeavesOrderGap(a: string, b: string)
    requires a != b
    ensures var qs := RemoveQuestion(AddQuestion(AddQuestion([], a), b), a);
      |qs| == 1 && qs[0].id == b && qs[0].order == 1
  {
    var two := AddQuestion(AddQuestion([], a), b);
    assert two == [] + [BlankQuestion(a, 0)] + [BlankQuestion(b, 1)];
    assert two[..1] == [BlankQuestion(a, 0)];
    FilterAppend(two[..1], [BlankQuestion(b, 1)], (q: Question) => q.id != a);
    assert two[..1] + [BlankQuestion(b, 1)] == two;
    assert [BlankQuestion(a, 0)] == [] + [BlankQuestion(a, 0)];
    assert [BlankQuestion(b, 1)] == [] + [BlankQuestion(b, 1)];
  }

  /** The two fields the editor lets a user change on a question. */
  datatype Field = QuestionText(text: string) | QuestionType(kind: QuestionType)

  function SetField(q: Question, field: Field): Question {
    match field
    case QuestionText(t) => q.(text := t)
    case QuestionType(k) => q.(kind := k)
  }

  /** Apply `change` to the questions with the given id and keep all others. */
  function MapMatching(questions: seq<Question>, id: string, change: Question -> Question): (after: seq<Question>)
    ensures |after| == |questions|
    ensures forall i :: 0 <= i < |questions| ==>
      after[i] == if questions[i].id == id then change(questions[i]) else questions[i]
  {
    seq(|questions|, i requires 0 <= i < |questions| =>
      if questions[i].id == id then change(questions[i]) else questions[i])
  }

  /** `updateQuestion`: only the named field of the matching question changes. */
  function UpdateQuestion(questions: seq<Question>, id: string, field: Field): (after: seq<Question>)
    ensures |after| == |questions|
    ensures forall i :: 0 <= i < |questions| && questions[i].id != id ==> after[i] == questions[i]
    ensures forall i :: 0 <= i < |questions| && questions[i].id == id ==>
      && after[i].id == id && after[i].options == questions[i].options && after[i].order == questions[i].order
      && (field.QuestionText? ==> after[i].text == field.text && after[i].kind == questions[i].kind)
      && (field.QuestionType? ==> after[i].kind == field.kind && after[i].text == questions[i].text)
  {
    MapMatching(questions, id, (q: Question) => SetField(q, field))
  }

  /** `addOption`: the matching question gains one empty option at the end. */
  function AddOption(questions: seq<Question>, id: string): (after: seq<Question>)
    ensures |after| == |questions|
    ensures forall i :: 0 <= i < |questions| && questions[i].id != id ==> after[i] == questions[i]
    ensures forall i :: 0 <= i < |questions| && questions[i].id == id ==>
      after[i] == questions[i].(options := questions[i].options + [""])
  {
    MapMatching(questions, id, (q: Question) => q.(options := q.options + [""]))
  }

  /** `filter((_, i) => i !== index)`: drop the option at that index, if there is one. */
  function WithoutIndex(options: seq<string>, index: int): (after: seq<string>)
    ensures 0 <= index < |options| ==> |after| == |options| - 1
    ensures 0 <= index < |options| ==>
      forall i :: 0 <= i < |after| ==> after[i] == if i < index then options[i] else options[i + 1]
    ensures !(0 <= index < |options|) ==> after == options
  {
    if 0 <= index < |options| then options[..index] + options[index + 1..] else options
  }

  /** `removeOption`: the matching question loses exactly the option at the index. */
  function RemoveOption(questions: seq<Question>, id: string, index: int): (after: seq<Question>)
    ensures |after| == |questions|
    ensures forall i :: 0 <= i < |questions| && questions[i].id != id ==> after[i] == questions[i]
    ensures forall i :: 0 <= i < |questions| && questions[i].id == id ==>
      after[i] == questions[i].(options := WithoutIndex(questions[i].options, index))
  {
    MapMatching(questions, id, (q: Question) => q.(options := WithoutIndex(q.options, index)))
  }

  /** `map((opt, i) => i === index ? value : opt)`. */
  function ReplaceAt(options: seq<string>, index: int, value: string): (after: seq<string>)
    ensures |after| == |options|
    ensures forall i :: 0 <= i < |options| ==> after[i] == if i == index then value else options[i]
  {
    seq(|options|, i requires 0 <= i < |options| => if i == index then value else options[i])
  }

  /** `updateOption`: one option of the matching question is replaced; the count of options is kept. */
  function UpdateOption(questions: seq<Question>, id: string, index: int, value: string): (after: seq<Question>)
    ensures |after| == |questions|
    ensures forall i :: 0 <= i < |questions| && questions[i].id != id ==> after[i] == questions[i]
    ensures forall i :: 0 <= i < |questions| && questions[i].id == id ==>
      after[i] == questions[i].(options := ReplaceAt(questions[i].options, index, value))
  {
    MapMatching(questions, id, (q: Question) => q.(options := ReplaceAt(q.options, index, value)))
  }

  predicate AtLeastTwoOptions(questions: seq<Question>) {
    forall i :: 0 <= i < |questions| ==> |questions[i].options| >= 2
  }

  /** The editor shows the remove button only on questions holding more than two options. */
  predicate RemoveOffered(questions: seq<Question>, id: string) {
    forall i :: 0 <= i < |questions| && questions[i].id == id ==> |questions[i].options| > 2
  }

  /**
   * Through the editor no question ever drops below two options: new
   * questions start with two, adding grows, updating keeps the count, and
   * removing is only offered above two.
   */
  lemma EditorKeepsTwoOptions(questions: seq<Question>, id: string, index: int, value: string, field: Field)
    requires AtLeastTwoOptions(questions)
    ensures AtLeastTwoOptions(AddQuestion(questions, id))
    ensures AtLeastTwoOptions(AddOption(questions, id))
    ensures AtLeastTwoOptions(UpdateOption(questions, id, index, value))
    ensures AtLeastTwoOptions(UpdateQuestion(questions, id, field))
    ensures AtLeastTwoOptions(RemoveQuestion(questions, id))
    ensures RemoveOffered(questions, id) ==> AtLeastTwoOptions(RemoveOption(questions, id, index))
  {
    var removed := RemoveQuestion(questions, id);
    forall i | 0 <= i < |removed| ensures |removed[i].options| >= 2 {
      assert removed[i] in questions;
    }
  }

  /** The outcome of pressing "Create Survey". */
  datatype SubmitOutcome = NoQuestionsAdded | Created(store: SurveyStore.Store, survey: Survey)

  /**
   * `handleSubmit`: an empty question list is refused with a notice;
   * otherwise the survey is created with the draft's fields and the current
   * user as author.
   */
  function SubmitSurvey(store: SurveyStore.Store, title: string, description: string, userId: string,
                        questions: seq<Question>, id: string, now: int): (outcome: SubmitOutcome)
    ensures outcome.NoQuestionsAdded? <==> questions == []
    ensures outcome.Created? ==>
      && outcome.store.surveys == store.surveys + [outcome.survey]
      && outcome.survey.questions == questions && outcome.survey.createdBy == userId
      && outcome.survey.title == title && outcome.survey.description == description
  {
    if questions == [] then NoQuestionsAdded
    else
      var (after, s) := SurveyStore.CreateSurvey(store, SurveyStore.SurveyInput(title, description, userId, questions), id, now);
      Created(after, s)
  }
}
