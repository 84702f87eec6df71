/**
 * The survey store: the lists of surveys, responses and links, and the
 * operations that replace them. Each operation returns the new lists;
 * persistence is not modelled.
 */
module SurveyStore {
  import opened Wrappers
  import opened SurveyData
  import opened Seqs

  datatype Store = Store(surveys: seq<Survey>, responses: seq<Response>, links: seq<Link>)

  /** The fields the survey editor passes to `createSurvey`. */
  datatype SurveyInput = SurveyInput(title: string, description: string, createdBy: string, questions: seq<Question>)

  /** `createSurvey`: append one survey built from the input, a fresh id and the current time. */
  function CreateSurvey(store: Store, input: SurveyInput, id: string, now: int): (result: (Store, Survey))
    ensures var (after, s) := result;
      && after.surveys == store.surveys + [s]
      && s.id == id && s.title == input.title && s.description == input.description
      && s.createdBy == input.createdBy && s.questions == input.questions
      && s.createdAt == now && s.updatedAt == now
      && after.responses == store.responses && after.links == store.links
  {
    var s := Survey(id, input.title, input.description, input.createdBy, input.questions, now, now);
    (store.(surveys := store.surveys + [s]), s)
  }

  /** The fields `updateSurvey` may be given; absent ones keep their value. */
  datatype SurveyPatch = SurveyPatch(
    title: Option<string>,
    description: Option<string>,
    questions: Option<seq<Question>>)

  function Merge(s: Survey, patch: SurveyPatch, now: int): (merged: Survey)
    ensures merged.id == s.id && merged.createdBy == s.createdBy && merged.createdAt == s.createdAt
    ensures merged.title == patch.title.GetOr(s.title)
    ensures merged.description == patch.description.GetOr(s.description)
    ensures merged.questions == patch.questions.GetOr(s.questions)
    ensures merged.updatedAt == now
  {
    s.(title := patch.title.GetOr(s.title),
       description := patch.description.GetOr(s.description),
       questions := patch.questions.GetOr(s.questions),
       updatedAt := now)
  }

  /** `updateSurvey`: merge the patch into the surveys with the given id; length and order are kept. */
  function UpdateSurvey(store: Store, surveyId: string, patch: SurveyPatch, now: int): (after: Store)
    ensures |after.surveys| == |store.surveys|
    ensures forall i :: 0 <= i < |store.surveys| ==>
      after.surveys[i] == if store.surveys[i].id == surveyId then Merge(store.surveys[i], patch, now) else store.surveys[i]
    ensures after.responses == store.responses && after.links == store.links
  {
    store.(surveys := seq(|store.surveys|, i requires 0 <= i < |store.surveys| =>
      if store.surveys[i].id == surveyId then Merge(store.surveys[i], patch, now) else store.surveys[i]))
  }

  /** The survey ids, in stored order. */
  function SurveyIds(surveys: seq<Survey>): (ids: seq<string>)
    ensures |ids| == |surveys|
    ensures forall i :: 0 <= i < |surveys| ==> ids[i] == surveys[i].id
  {
    seq(|surveys|, i requires 0 <= i < |surveys| => surveys[i].id)
  }

  predicate UniqueIds(surveys: seq<Survey>) {
    forall i, j :: 0 <= i < j < |surveys| ==> surveys[i].id != surveys[j].id
  }

  /** The position of the first entry equal to `id`. */
  function FirstIndexOf(ids: seq<string>, id: string): (found: Option<nat>)
    ensures found.Some? ==>
      && found.value < |ids| && ids[found.value] == id
      && forall j :: 0 <= j < found.value ==> ids[j] != id
    ensures found.None? ==> forall i :: 0 <= i < |ids| ==> ids[i] != id
  {
    if ids == [] then None
    else if ids[0] == id then Some(0)
    else
      match FirstIndexOf(ids[1..], id)
      case None => None
      case Some(k) => Some(k + 1)
  }

  /** `surveys.find(s => s.id === id)`: the first survey with that id, as the survey pages look it up. */
  function FindSurvey(store: Store, id: string): (found: Option<Survey>)
    ensures found.None? <==> forall i :: 0 <= i < |store.surveys| ==> store.surveys[i].id != id
    ensures found.Some? ==> found.value.id == id && found.value in store.surveys
    ensures found.Some? ==> exists i :: (&& 0 <= i < |store.surveys| && store.surveys[i] == found.value
                                         && forall j :: 0 <= j < i ==> store.surveys[j].id != id)
  {
    match FirstIndexOf(SurveyIds(store.surveys), id)
    case None => None
    case Some(i) => Some(store.surveys[i])
  }

  /**
   * Creating a survey under an id no stored survey has keeps the ids
   * distinct; the new id is added at the end and the survey is found by it.
   */
  lemma CreateKeepsIdsUnique(store: Store, input: SurveyInput, id: string, now: int)
    requires UniqueIds(store.surveys)
    requires forall i :: 0 <= i < |store.surveys| ==> store.surveys[i].id != id
    ensures var (after, s) := CreateSurvey(store, input, id, now);
      && UniqueIds(after.surveys)
      && SurveyIds(after.surveys) == SurveyIds(store.surveys) + [id]
      && FindSurvey(after, id) == Some(s)
  {
    var (after, s) := CreateSurvey(store, input, id, now);
    assert SurveyIds(after.surveys)[..|store.surveys|] == SurveyIds(store.surveys);
    assert FirstIndexOf(SurveyIds(after.surveys), id) == Some(|store.surveys|) by {
      assert forall j :: 0 <= j < |store.surveys| ==> SurveyIds(after.surveys)[j] != id;
      assert SurveyIds(after.surveys)[|store.surveys|] == id;
    }
  }

  /**
   * Updating never changes the ids, so every lookup by id finds the same
   * position as before; looking up the updated id yields the merged survey,
   * and every other id yields the survey it did before.
   */
  lemma UpdateKeepsIds(store: Store, surveyId: string, patch: SurveyPatch, now: int, other: string)
    ensures var after := UpdateSurvey(store, surveyId, patch, now);
      && SurveyIds(after.surveys) == SurveyIds(store.surveys)
      && (UniqueIds(store.surveys) ==> UniqueIds(after.surveys))
      && FindSurvey(after, surveyId) ==
           (match FindSurvey(store, surveyId)
            case None => None
            case Some(s) => Some(Merge(s, patch, now)))
      && (other != surveyId ==> FindSurvey(after, other) == FindSurvey(store, other))
  {
  }

  /** `deleteSurvey`: drop the survey and, in cascade, its responses and links. */
  function DeleteSurvey(store: Store, surveyId: string): (after: Store)
    ensures forall s :: s in after.surveys <==> s in store.surveys && s.id != surveyId
    ensures forall r :: r in after.responses <==> r in store.responses && r.surveyId != surveyId
    ensures forall l :: l in after.links <==> l in store.links && l.surveyId != surveyId
  {
    Store(
      Filter(store.surveys, (s: Survey) => s.id != surveyId),
      Filter(store.responses, (r: Response) => r.surveyId != surveyId),
      Filter(store.links, (l: Link) => l.surveyId != surveyId))
  }

  /**
   * Deleting an id that nothing carries changes nothing, and deleting twice
   * is deleting once.
   */
  lemma DeleteExact(store: Store, surveyId: string)
    ensures DeleteSurvey(DeleteSurvey(store, surveyId), surveyId) == DeleteSurvey(store, surveyId)
    ensures (forall i :: 0 <= i < |store.surveys| ==> store.surveys[i].id != surveyId)
         && (forall i :: 0 <= i < |store.responses| ==> store.responses[i].surveyId != surveyId)
         && (forall i :: 0 <= i < |store.links| ==> store.links[i].surveyId != surveyId)
         ==> DeleteSurvey(store, surveyId) == store
  {
    FilterIdempotent(store.surveys, (s: Survey) => s.id != surveyId);
    FilterIdempotent(store.responses, (r: Response) => r.surveyId != surveyId);
    FilterIdempotent(store.links, (l: Link) => l.surveyId != surveyId);
    if (forall i :: 0 <= i < |store.surveys| ==> store.surveys[i].id != surveyId)
       && (forall i :: 0 <= i < |store.responses| ==> store.responses[i].surveyId != surveyId)
       && (forall i :: 0 <= i < |store.links| ==> store.links[i].surveyId != surveyId) {
      FilterKeepsAll(store.surveys, (s: Survey) => s.id != surveyId);
      FilterKeepsAll(store.responses, (r: Response) => r.surveyId != surveyId);
      FilterKeepsAll(store.links, (l: Link) => l.surveyId != surveyId);
    }
  }

  /** `submitResponse`: append one response recording the survey, the given identifier under `user_email`, and the answers. */
  function SubmitResponse(store: Store, surveyId: string, userEmail: string, answers: map<string, string>, id: string, now: int): (after: Store)
    ensures |after.responses| == |store.responses| + 1
    ensures after.responses[..|store.responses|] == store.responses
    ensures var r := after.responses[|store.responses|];
      r.id == id && r.surveyId == surveyId && r.userEmail == userEmail && r.userId.None?
      && r.answers == answers && r.submittedAt == now
    ensures after.surveys == store.surveys && after.links == store.links
  {
    store.(responses := store.responses + [Response(id, surveyId, userEmail, None, answers, now)])
  }

  /** `s.slice(-k)`: the last k characters, or the whole string when it is shorter. */
  function LastChars(s: string, k: nat): (t: string)
    ensures |t| == if |s| < k then |s| else k
    ensures t == s[|s| - |t|..]
  {
    if |s| <= k then s else s[|s| - k..]
  }

  const ShortLinkPrefix := "https://tiny.url/survey-"

  /** `generateSurveyLinks`: replace the survey's link by a new one, placed last. */
  function GenerateSurveyLinks(store: Store, surveyId: string, origin: string, id: string, now: int): (result: (Store, Link))
    ensures var (after, link) := result;
      && link.surveyId == surveyId
      && after.links == Filter(store.links, (l: Link) => l.surveyId != surveyId) + [link]
      && link.longLink == origin + "/survey/" + surveyId
      && link.shortLink == ShortLinkPrefix + LastChars(surveyId, 6)
      && after.surveys == store.surveys && after.responses == store.responses
  {
    var link := Link(id, surveyId, origin + "/survey/" + surveyId, ShortLinkPrefix + LastChars(surveyId, 6), now);
    (store.(links := Filter(store.links, (l: Link) => l.surveyId != surveyId) + [link]), link)
  }

  /** The links recorded for one survey, in stored order. */
  function LinksOf(links: seq<Link>, surveyId: string): seq<Link> {
    Filter(links, (l: Link) => l.surveyId == surveyId)
  }

  /**
   * After generating links there is exactly one link for the survey, the new
   * one at the end, and the links of every other survey are as before.
   */
  lemma OneLinkPerSurvey(store: Store, surveyId: string, origin: string, id: string, now: int)
    ensures var (after, link) := GenerateSurveyLinks(store, surveyId, origin, id, now);
      && after.links[|after.links| - 1] == link
      && (forall i :: 0 <= i < |after.links| - 1 ==> after.links[i].surveyId != surveyId)
      && (forall other :: other != surveyId ==> LinksOf(after.links, other) == LinksOf(store.links, other))
  {
    var (after, link) := GenerateSurveyLinks(store, surveyId, origin, id, now);
    var rest := Filter(store.links, (l: Link) => l.surveyId != surveyId);
    assert after.links == rest + [link];
    forall i | 0 <= i < |after.links| - 1 ensures after.links[i].surveyId != surveyId {
      assert after.links[i] == rest[i];
    }
    forall other | other != surveyId
      ensures LinksOf(after.links, other) == LinksOf(store.links, other)
    {
      OtherLinksKept(store.links, surveyId, link, other);
    }
  }

  lemma OtherLinksKept(links: seq<Link>, surveyId: string, link: Link, other: string)
    requires link.surveyId == surveyId != other
    ensures LinksOf(Filter(links, (l: Link) => l.surveyId != surveyId) + [link], other) == LinksOf(links, other)
  {
    var rest := Filter(links, (l: Link) => l.surveyId != surveyId);
    FilterAppend(rest, [link], (l: Link) => l.surveyId == other);
    assert Filter([link], (l: Link) => l.surveyId == other) == [] by {
      assert [link] == [] + [link];
    }
    FilterNested(links, surveyId, other);
    assert rest + [] == rest;
  }

  /** Dropping one survey's links and then selecting another survey's is selecting it directly. */
  lemma {:induction false} FilterNested(links: seq<Link>, dropped: string, other: string)
    requires dropped != other
    ensures Filter(Filter(links, (l: Link) => l.surveyId != dropped), (l: Link) => l.surveyId == other)
         == Filter(links, (l: Link) => l.surveyId == other)
  {
    if links != [] {
      var init := links[..|links| - 1];
      var last := links[|links| - 1];
      FilterNested(init, dropped, other);
      var keep := (l: Link) => l.surveyId != dropped;
      var pick := (l: Link) => l.surveyId == other;
      FilterAppend(Filter(init, keep), if keep(last) then [last] else [], pick);
      if keep(last) {
        assert [last] == [] + [last];
      }
    }
  }

  /** `getSurveyLinks`: `find`, the first link recorded for the survey, if any. */
  function GetSurveyLinks(store: Store, surveyId: string): (found: Option<Link>)
    ensures found.None? <==> forall i :: 0 <= i < |store.links| ==> store.links[i].surveyId != surveyId
    ensures found.Some? ==> found.value.surveyId == surveyId
    ensures found.Some? ==>
      exists i :: (&& 0 <= i < |store.links| && store.links[i] == found.value
                   && forall j :: 0 <= j < i ==> store.links[j].surveyId != surveyId)
  {
    match FirstLinkIndex(store.links, surveyId)
    case None => None
    case Some(i) => Some(store.links[i])
  }

  /** The position of the first link of the survey. */
  function FirstLinkIndex(links: seq<Link>, surveyId: string): (found: Option<nat>)
    ensures found.Some? ==>
      && found.value < |links| && links[found.value].surveyId == surveyId
      && forall j :: 0 <= j < found.value ==> links[j].surveyId != surveyId
    ensures found.None? ==> forall i :: 0 <= i < |links| ==> links[i].surveyId != surveyId
  {
    if links == [] then None
    else if links[0].surveyId == surveyId then Some(0)
    else
      match FirstLinkIndex(links[1..], surveyId)
      case None => None
      case Some(k) => Some(k + 1)
  }

  /** `getSurveyResponses`: the survey's responses in stored order. */
  function GetSurveyResponses(store: Store, surveyId: string): (rs: seq<Response>)
    ensures forall r :: r in rs <==> r in store.responses && r.surveyId == surveyId
  {
    Filter(store.responses, (r: Response) => r.surveyId == surveyId)
  }

  /** `hasUserCompletedSurvey`: is there a response to the survey whose `user_id` is the given one? */
  function HasUserCompletedSurvey(store: Store, surveyId: string, userId: string): (done: bool)
    ensures done <==> exists r :: r in GetSurveyResponses(store, surveyId) && r.userId == Some(userId)
  {
    exists i :: 0 <= i < |store.responses| && store.responses[i].surveyId == surveyId
      && store.responses[i].userId == Some(userId)
  }

  /**
   * Submitting never changes the answer of `hasUserCompletedSurvey`: new
   * responses record the identifier under `user_email`, while the check reads
   * `user_id`.
   */
  lemma SubmitDoesNotComplete(store: Store, surveyId: string, userEmail: string, answers: map<string, string>,
                              id: string, now: int, querySurvey: string, queryUser: string)
    ensures HasUserCompletedSurvey(SubmitResponse(store, surveyId, userEmail, answers, id, now), querySurvey, queryUser)
        <==> HasUserCompletedSurvey(store, querySurvey, queryUser)
  {
    var after := SubmitResponse(store, surveyId, userEmail, answers, id, now);
    assert forall r :: r in after.responses ==> r in store.responses || r.userId.None?;
  }

  /**
   * The check as evidently intended: it reads the field submissions actually
   * write, so a submission is recognised.
   */
  predicate HasUserCompletedSurveyByEmail(store: Store, surveyId: string, userEmail: string) {
    exists r :: r in store.responses && r.surveyId == surveyId && r.userEmail == userEmail
  }

  lemma SubmitCompletesByEmail(store: Store, surveyId: string, userEmail: string, answers: map<string, string>,
                               id: string, now: int)
    ensures HasUserCompletedSurveyByEmail(SubmitResponse(store, surveyId, userEmail, answers, id, now), surveyId, userEmail)
  {
    var after := SubmitResponse(store, surveyId, userEmail, answers, id, now);
    assert after.responses[|store.responses|] in after.responses;
  }
}
