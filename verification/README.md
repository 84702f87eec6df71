# Survey statistics and export engine, in Dafny

This project models the logic of a small survey application. Organizers build
surveys of multiple-choice, rating and text questions. Respondents submit
answer maps. The application then computes per-question statistics and
exports the responses as a spreadsheet or a PDF report.

What is modelled, one module per source component:

- `SurveyData`: surveys, questions (with a closed `QuestionType`), responses with their
  `map<string, string>` answers, and links.
- `QuestionStats`: the detail page's per-question statistics.
  - A multiple-choice tally keyed by the declared options.
  - A rating sum and count over answers that parse as integers.
  - The list of non-empty text answers.
  - Display percentages, taken over the sum of the tallies.
- `Export`: the spreadsheet and PDF exports.
  - The inclusive date filter and the "No data to export" notice.
  - The flat rows, one per response × question, with `N/A` for missing answers.
  - The report content: a totals line, then numbered sections. Each section holds a
    multiple-choice table with percentages over all filtered responses, an average
    rating or `N/A`, or a preview of five text answers with an "...and K more" note.
  - The generated file names.
- `Text`: JavaScript's decimal `parseInt`, number rendering, and `replace(/\s+/g, '_')`.
- `SurveyStore`: create, update and delete surveys (deletion cascades), submit responses,
  replace a survey's link, and the two lookups.
- `SurveyEditor`: the survey editor's question and option list operations, and the refusal
  to save a survey with no questions.
- `Auth`: login, signup and company registration, each a transition over the user list,
  the company list and the signed-in user.
- `Toasts`: the toast id counter and the toast list. New toasts go first, the list is cut
  to `TOAST_LIMIT`, and update and dismiss target one id.
- `SignupForm` and `SurveyForm`: the signup page's password checks and role-based
  redirect, and the survey page's answer map, all-answered gate and entry screen.
- `Seqs`: the order-preserving `filter` the stores and the exporter share.
- `Scenarios`: worked examples. Answers Yes, Yes, No display as 67% and 33%. Of the
  rating answers "3", "5", "x", "4", the "x" is skipped and the other three average 4.0.

Parameters stand in for the outside world. Ids from `Date.now()`, timestamps
(integers in milliseconds) and `window.location.origin` are all passed in.
Every store operation returns the new lists instead of writing to
`localStorage`.

Two denominators are kept apart on purpose, as in the source. The detail page
divides an option's count by the sum of all option counts. The PDF report
divides it by the number of filtered responses.

## Model

| member | source | states |
|---|---|---|
| Text.ParseInt | src/services/exportService.js:101 | parseInt yields no number exactly when no digit follows the leading white space and sign |
| Text.ParseIntValue | src/services/exportService.js:101 | for any input made of white space, an optional sign, a non-empty digit run (leading zeros allowed) and anything not starting with a digit, parseInt returns the signed value of the digit run |
| Text.ParseDecimal | src/pages/TakeSurvey.jsx:184-188 | the decimal rendering of a natural number, as the rating buttons store it, parses back to that number |
| Text.CollapseHasNoSpaces | src/services/exportService.js:35 | the name prefix produced by replacing white-space runs contains no white space |
| Text.CollapseSpaces | src/services/exportService.js:35 | `replace(/\s+/g, '_')` never lengthens the title; its partners state that the result has no white space, that it is a fixed point exactly on strings without white space, that it is idempotent, and that each maximal white-space run becomes one underscore |
| Text.CollapseFixedPoint | src/services/exportService.js:35 | the replacement leaves a title unchanged if and only if the title has no white space |
| Text.CollapseIdempotent | src/services/exportService.js:128 | replacing white-space runs a second time changes nothing |
| Text.RunBecomesUnderscore | src/services/exportService.js:35 | each maximal white-space run between non-space neighbours becomes exactly one underscore |
| Text.CollapseAppend | src/services/exportService.js:35 | the replacement works piecewise on any split that does not cut a white-space run |
| QuestionStats.Distinct | src/pages/SurveyDetail.jsx:41-42 | the counting object's keys are the declared options, each once, with duplicates collapsed |
| QuestionStats.CountAnswers | src/pages/SurveyDetail.jsx:41-45 | the zero-initialised counting pass leaves every key with the number of non-empty answers equal to it |
| QuestionStats.StatsOf | src/pages/SurveyDetail.jsx:37-56 | the statistic is a tally for multiple choice, a sum and count for rating, and an answer list for text |
| QuestionStats.TallyMatchesOptions | src/pages/SurveyDetail.jsx:41-42 | the tally's keys are exactly the declared options, without repeats; each count is the number of responses choosing that option, so all are zero with no responses |
| QuestionStats.TallySum | src/pages/SurveyDetail.jsx:43-45 | each response adds at most one count, so the counts sum to at most the number of responses; they sum to exactly that number if and only if every response chose a declared option |
| QuestionStats.UnansweredResponseChangesNothing | src/pages/SurveyDetail.jsx:38-54 | a response that omits the question leaves that question's statistic unchanged, for all three kinds |
| QuestionStats.RatingBounds | src/pages/SurveyDetail.jsx:47-52 | when answers are "1".."5" or absent, the count is the number of answers given and lies between sum/5 and the sum |
| QuestionStats.NonEmptyAnswersExact | src/pages/SurveyDetail.jsx:54 | the text statistic holds exactly the non-empty answers, never more items than responses |
| QuestionStats.NonEmptyAnswers | src/pages/SurveyDetail.jsx:54 | `filter(r => r)` keeps at most as many answers as there are responses, and keeps all of them exactly when every answer is present and non-empty |
| QuestionStats.Ratings | src/pages/SurveyDetail.jsx:47 | the parsed ratings are never more than the answers |
| QuestionStats.RatingsCountAll | src/pages/SurveyDetail.jsx:47 | every answer is counted as a rating exactly when every answer is present and parses as an integer |
| QuestionStats.NonEmptyAnswersAppend | src/pages/SurveyDetail.jsx:54 | the text statistic keeps response order: two batches give their answers one after the other |
| QuestionStats.Percent | src/pages/SurveyDetail.jsx:160-162 | the display percentage is count/total×100 rounded half up, and 0 when nothing was tallied |
| QuestionStats.PercentRange | src/pages/SurveyDetail.jsx:160-162 | a display percentage lies in 0..100, is 0 for a zero count and 100 when the option holds every tally |
| QuestionStats.DisplayPercentagesRange | src/pages/SurveyDetail.jsx:158-162 | the denominator is the sum of option counts; all percentages are 0 when it is 0, each is at most 100, and an option holding all tallies shows 100 |
| QuestionStats.DisplayPercentages | src/pages/SurveyDetail.jsx:158-162 | one percentage per option; its partners state that each lies in 0..100 and that they add up to 100 within half a point per option |
| QuestionStats.DisplayPercentagesSum | src/pages/SurveyDetail.jsx:158-162 | with at least one tally, the displayed percentages of n options add up to 100 within half a point per option: within ±(n−1) of 100, and exactly 100 for one option |
| QuestionStats.AverageTenths | src/pages/SurveyDetail.jsx:49-51 | the average is the mean rounded to the nearest tenth, exact halves away from zero (the rounding error lies in [−½, ½) for a non-negative mean and in (−½, ½] for a negative one), with the sign of the sum |
| QuestionStats.RoundingUnique | src/pages/SurveyDetail.jsx:50 | the rounding rule admits exactly one number of tenths for each mean, so the average is fully determined |
| QuestionStats.DisplayAverage | src/pages/SurveyDetail.jsx:49-52 | the detail page shows the mean to one decimal, or 0 when no rating was counted |
| Seqs.Filter | src/contexts/SurveyContext.jsx:99 | filtering keeps exactly the elements that pass the test, and nothing else |
| Seqs.FilterAppend | src/contexts/SurveyContext.jsx:44-59 | filtering works batch by batch, so kept entries stay in their stored order |
| Export.FilterByDate | src/services/exportService.js:7-13 | with a range holding both ends, exactly the responses with from ≤ submitted_at ≤ to are kept; otherwise all are kept |
| Export.FilterKeepsOrder | src/services/exportService.js:40-46 | the date filter keeps the responses' stored order |
| Export.FileName | src/services/exportService.js:35 | the file name ends with the suffix and its prefix holds no white space |
| Export.FileNameStable | src/services/exportService.js:128 | naming a file after an already generated prefix gives the same name |
| Export.AnswerCell | src/services/exportService.js:27 | the Answer cell is the stored answer, or "N/A" when the answer is missing or empty |
| Export.Rows | src/services/exportService.js:20-30 | there are exactly filtered × questions rows |
| Export.RowAt | src/services/exportService.js:21-29 | row i·Q + j pairs response i with question j: response-major, survey question order inside |
| Export.RowsAt | src/services/exportService.js:21-29 | for every filtered response i and question j, the row at position i·Q + j exists and is that pair's row |
| Export.ExportToExcel | src/services/exportService.js:6-36 | the spreadsheet export raises the no-data notice if and only if no response survives the filter; otherwise it names the file "<title>_Responses.xlsx" and holds filtered × questions rows, the row at position i·Q + j being the one for date-filtered response i and question j, so rows run response-major in stored order |
| Export.ExportToPdf | src/services/exportService.js:39-128 | the report export raises the no-data notice if and only if no response survives the filter; otherwise it names the file "<title>_Report.pdf", carries the survey's title and description, totals the filtered responses, and its section i is question i's section computed over the date-filtered responses |
| Export.ReportSections | src/services/exportService.js:69-123 | section i is numbered i+1, carries question i's text and a body of that question's kind: the option table for multiple choice, the average line for rating, the text preview for text |
| Export.ExportedChoiceCounts | src/services/exportService.js:82-92 | in an exported report, a multiple-choice section lists each declared option in order with the number of date-filtered responses choosing it and its percentage of all date-filtered responses |
| Export.ExportedRatingAverage | src/services/exportService.js:100-103 | in an exported report, a rating section reads "N/A" exactly when no date-filtered answer parses, and otherwise shows the parsed answers' mean rounded to a tenth |
| Export.ChoiceRowsExact | src/services/exportService.js:83-92 | one table row per declared option in declared order; the count is the number of filtered responses choosing it, and the percentage is taken over all filtered responses |
| Export.ChoiceRows | src/services/exportService.js:83-92 | one row per declared option, row i naming option i; ChoiceRowsExact and ChoiceRowsSum state the counts, percentages and total |
| Export.ChoiceRowsSum | src/services/exportService.js:85-90 | with distinct options, the table's counts add up to at most the number of filtered responses |
| Export.PercentTenths | src/services/exportService.js:92 | the report percentage is count/total×100 to one decimal, rounded half up |
| Export.PercentTenthsRange | src/services/exportService.js:92 | a report percentage is at most 100.0, and is 100.0 when every filtered response chose the option |
| Export.RatingBodyExact | src/services/exportService.js:101-103 | the average line is "N/A" exactly when no filtered answer parses; otherwise it is the mean of the parsed answers to one decimal |
| Export.RatingBody | src/services/exportService.js:100-103 | the rating section is an average line; it reads "N/A" exactly when no rating was parsed, and otherwise shows the parsed ratings' mean rounded to a tenth, halves away from zero |
| Export.TextBodyExact | src/services/exportService.js:106-123 | the preview shows the first min(5, n) non-empty answers, "...and n−5 more" appears if and only if n > 5, and "No text responses." appears if and only if n = 0 |
| Export.TextBody | src/services/exportService.js:105-123 | the text section is either "No text responses." or a non-empty preview of at most five answers that is a prefix of the non-empty answers, with the preview and the hidden count adding up to all of them |
| SurveyStore.CreateSurvey | src/contexts/SurveyContext.jsx:24-35 | exactly one survey carrying the given fields, id and time is appended; everything else is unchanged |
| SurveyStore.CreateKeepsIdsUnique | src/contexts/SurveyContext.jsx:24-35 | creating a survey under an id no stored survey has keeps survey ids distinct, appends the id, and the survey is found by it |
| SurveyStore.Merge | src/contexts/SurveyContext.jsx:38 | given fields replace the old ones, absent fields are kept, id and creation data stay, updated_at is now |
| SurveyStore.UpdateSurvey | src/contexts/SurveyContext.jsx:37-42 | only surveys with the matching id are merged; length and order are preserved |
| SurveyStore.UpdateKeepsIds | src/contexts/SurveyContext.jsx:37-42 | updating never changes the stored ids or their uniqueness; looking up the updated id yields the merged survey, and every other id yields what it did before |
| SurveyStore.DeleteSurvey | src/contexts/SurveyContext.jsx:44-59 | the survey and every response and link with its survey_id are removed; all other entries remain |
| SurveyStore.DeleteExact | src/contexts/SurveyContext.jsx:44-59 | deleting twice is deleting once, and deleting an id nothing carries changes nothing |
| SurveyStore.SubmitResponse | src/contexts/SurveyContext.jsx:61-73 | exactly one response recording survey_id, user_email and the answers is appended; earlier responses are unchanged |
| SurveyStore.LastChars | src/contexts/SurveyContext.jsx:78 | slice(-6) gives the last six characters, or the whole id when it is shorter |
| SurveyStore.GenerateSurveyLinks | src/contexts/SurveyContext.jsx:75-95 | the survey's old links are dropped and the new link is placed last; the short link ends with the id's last six characters |
| SurveyStore.OneLinkPerSurvey | src/contexts/SurveyContext.jsx:91 | afterwards exactly one link has the survey's id, the new one at the end, and every other survey's links are as before |
| SurveyStore.GetSurveyLinks | src/contexts/SurveyContext.jsx:97 | the lookup returns the first stored link of the survey, and comes back empty exactly when the survey has none |
| SurveyStore.GetSurveyResponses | src/contexts/SurveyContext.jsx:99 | the lookup returns exactly the responses with that survey_id |
| SurveyStore.FindSurvey | src/pages/TakeSurvey.jsx:19 | the survey pages' lookup returns the first stored survey with the id (no earlier survey has it), and comes back empty exactly when no survey has it |
| SurveyStore.HasUserCompletedSurvey | src/contexts/SurveyContext.jsx:101-104 | the check holds exactly when one of the survey's responses, as getSurveyResponses returns them, carries the user's id in user_id |
| SurveyStore.SubmitDoesNotComplete | src/contexts/SurveyContext.jsx:102-104 | the check reads user_id while submissions write user_email, so submitting never changes its answer |
| SurveyStore.SubmitCompletesByEmail | src/contexts/SurveyContext.jsx:61-73 | a check reading user_email recognises the response just submitted |
| SurveyEditor.AddQuestion | src/pages/CreateSurvey.jsx:21-32 | one blank multiple-choice question with options ['', ''] and order = previous length is appended; existing questions are unchanged |
| SurveyEditor.RemoveQuestion | src/pages/CreateSurvey.jsx:34-36 | exactly the questions with that id are removed; the rest stay, with their original order values |
| SurveyEditor.RemoveLeavesOrderGap | src/pages/CreateSurvey.jsx:29-35 | order values are never renumbered: after adding two questions and removing the first, the survivor keeps order 1 |
| SurveyEditor.UpdateQuestion | src/pages/CreateSurvey.jsx:38-42 | only the named field of the matching question changes |
| SurveyEditor.AddOption | src/pages/CreateSurvey.jsx:44-48 | only the matching question changes, gaining one empty option at the end |
| SurveyEditor.WithoutIndex | src/pages/CreateSurvey.jsx:53 | the option at the index is dropped and the others shift down; an index out of range drops nothing |
| SurveyEditor.RemoveOption | src/pages/CreateSurvey.jsx:50-56 | only the matching question changes, losing exactly the option at the index |
| SurveyEditor.ReplaceAt | src/pages/CreateSurvey.jsx:63 | exactly the option at the index is replaced; the length is unchanged |
| SurveyEditor.UpdateOption | src/pages/CreateSurvey.jsx:58-67 | only the matching question changes, with one option replaced |
| SurveyEditor.EditorKeepsTwoOptions | src/pages/CreateSurvey.jsx:233 | the remove button appears only above two options, so no editor operation leaves a question with fewer than two |
| SurveyEditor.SubmitSurvey | src/pages/CreateSurvey.jsx:69-95 | saving is refused if and only if the question list is empty; otherwise one survey with the draft and the user as author is created |
| Auth.WithoutPassword | src/contexts/AuthContext.jsx:36-37 | the session record keeps every field of the user except the password |
| Auth.FindUser | src/contexts/AuthContext.jsx:30 | the lookup finds the first user whose email and password both match, or reports that none does |
| Auth.Login | src/contexts/AuthContext.jsx:28-43 | login succeeds if and only if the first matching user is not inactive; on success the session is that user without password; the user and company lists never change |
| Auth.LoginOutcome | src/contexts/AuthContext.jsx:29-42 | "Invalid email or password" comes back if and only if no user matches; "User account is inactive" comes back if and only if the first match is inactive |
| Auth.Signup | src/contexts/AuthContext.jsx:64-80 | signup refuses an email already present and then changes nothing; otherwise it appends the user and signs them in without the password |
| Auth.SignupKeepsEmailsUnique | src/contexts/AuthContext.jsx:69-73 | signup keeps all stored emails distinct |
| Auth.SessionIsStoredUser | src/contexts/AuthContext.jsx:36-39 | after a successful signup or login, the signed-in user is a stored record minus its password |
| Auth.NewCompanyFields | src/contexts/AuthContext.jsx:52-57 | a new company has status "active" and the submitted email, its id is the fresh one unless the data supplies one, a created_at key in the data never survives (the creation time is the company's own timestamp), every other data key keeps its value, and no key appears that is not in the data, the id or the status |
| Auth.RegisterCompany | src/contexts/AuthContext.jsx:46-62 | registration is refused if and only if a stored company has the same email; otherwise the company is appended as active |
| Auth.RegisterKeepsEmailsUnique | src/contexts/AuthContext.jsx:48-58 | registration keeps company emails distinct, a missing email counting as equal to another missing one |
| Auth.Logout | src/contexts/AuthContext.jsx:82-85 | after logout nobody is signed in |
| Toasts.GenerateId | src/components/ui/use-toast.jsx:7-10 | each new id is the new counter value and exceeds the previous counter |
| Toasts.IdsIncrease | src/components/ui/use-toast.jsx:6-10 | successive generated ids strictly increase, so they are distinct |
| Toasts.AddToast | src/components/ui/use-toast.jsx:54-60 | after toast() the list holds at most TOAST_LIMIT = 1 entries, and the newest comes first |
| Toasts.UpdateToast | src/components/ui/use-toast.jsx:41-47 | props are merged into the toast with that id only |
| Toasts.UpdateAbsentIsNoOp | src/components/ui/use-toast.jsx:44-46 | updating an id that is no longer shown changes nothing |
| Toasts.DismissToast | src/components/ui/use-toast.jsx:80-85 | only the toast with that id is removed |
| Toasts.DismissIdempotent | src/components/ui/use-toast.jsx:49-52 | dismissing twice is dismissing once |
| Toasts.OperationsKeepValid | src/components/ui/use-toast.jsx:38-67 | adding, updating and dismissing keep every shown id already issued and all shown ids distinct |
| SignupForm.Utf16Length | src/pages/Signup.jsx:32 | JavaScript's length counts UTF-16 units: exactly the number of characters plus one per character above U+FFFF, so it equals the character count when every character is in the Basic Multilingual Plane, and lies between one and two units per character |
| SignupForm.BmpPasswordLengthCheck | src/pages/Signup.jsx:23-39 | with matching passwords made of Basic Multilingual Plane characters, the submit is refused as too short if and only if the password has fewer than six characters |
| SignupForm.AstralCharacterCountsTwice | src/pages/Signup.jsx:32 | a five-character password whose last character is U+1F600 has length six and passes the length check |
| SignupForm.HandleSubmit | src/pages/Signup.jsx:20-60 | mismatched passwords are refused first, then passwords shorter than 6; signup runs only when both checks pass; the target is /admin if and only if the role is admin, otherwise /dashboard |
| SurveyForm.SetAnswer | src/pages/TakeSurvey.jsx:58-60 | one question's answer is set; every other answer is unchanged |
| SurveyForm.HandleSubmit | src/pages/TakeSurvey.jsx:62-83 | a submit goes through if and only if every question has a non-empty answer; it then appends exactly one response holding the survey id, the answers and the user's id, stored in the user_email field; otherwise nothing changes |
| SurveyForm.EmptyTextBlocksSubmit | src/pages/TakeSurvey.jsx:65 | an answer set to the empty string counts as unanswered and blocks the submit |
| SurveyForm.PageFor | src/pages/TakeSurvey.jsx:19-34 | the page shows "Survey not found" exactly when the `find` lookup comes back empty, and "Already Completed" exactly when the survey exists and the completion check holds; otherwise the form |
| SurveyForm.FormAnswersAreWellFormed | src/pages/TakeSurvey.jsx:168-188 | the form stores a declared option for multiple choice, and one of "1".."5" (parsing back to the star count) for rating |
| SurveyForm.ResubmissionStillOffered | src/pages/TakeSurvey.jsx:34 | as written, a user who has just submitted is offered the form again on the next visit |
| SurveyForm.SubmissionCompletes | src/pages/TakeSurvey.jsx:34 | with the completion check reading user_email, a submission is followed by the "Already Completed" screen |
| Scenarios.YesNoTally | src/pages/SurveyDetail.jsx:158-162 | options Yes and No answered Yes, Yes, No tally 2 and 1 and display as 67% and 33% |
| Scenarios.MalformedRatingIgnored | src/services/exportService.js:101 | a rating answer "x" does not parse and adds nothing to the counted ratings, whatever came before |
| Scenarios.RatingWithMalformedAnswer | src/services/exportService.js:101 | of the rating answers "3", "5", "x", "4", the ratings counted are 3, 5 and 4, in that order |
| Scenarios.RatingScenario | src/services/exportService.js:101-103 | for the answers "3", "5", "x", "4", three ratings are counted and the report shows an average of 4.0 |
| Scenarios.RatingAverageExample | src/services/exportService.js:102 | ratings 3, 5 and 4 average to 4.0 |
| Scenarios.AverageTiesAwayFromZero | src/services/exportService.js:102 | exact halves round away from zero: a mean of 0.05 shows as 0.1 and −0.05 as −0.1 |

## Left out

- SurveyStore.CreateKeepsIdsUnique: takes as given that the fresh id differs from every stored id. The source relies on `Date.now()` for this and does not check it.
- Persistence: `localStorage` and `JSON.parse` are not modelled. Each store is an in-memory value returned by its operations.
- Time and ids: `Date.now()` ids and ISO timestamps are parameters. Timestamps are integers, and unparsable dates are not modelled.
- Rendering: `toLocaleString` dates, page layout, framer-motion and the Helmet titles are left out.
- Export libraries: the XLSX workbook, the jsPDF document, the autotable layout and the page-break cursor are left out. The cursor reads `doc.autoTable.previous.finalY` from a library that is not part of this model.
- Browser APIs: the `btoa` QR placeholder is left out of the link record, and `window.location.origin` is a parameter.
- Toast listeners: the subscribe/notify mechanism does not change the toast list and is not modelled.
- Toasts.GenerateId: the counter is an unbounded natural. The source's `% Number.MAX_VALUE` wrap and float precision are not modelled, and ids are numbers, not their decimal strings.
- Toasts.UpdateToast: an `id` key among the update props, which would overwrite the toast's id in the source, is not modelled.
- QuestionStats.StatsOf: the source's `r && parseInt(r)` keeps an empty-string rating and then adds strings. The model drops empty answers, as the report does.
- QuestionStats.AverageTenths: floating-point division and `toFixed` are modelled as exact rational rounding to tenths. Ties that binary floats break the other way are not reproduced.
- Export.PercentTenths: `toFixed(1)` is modelled as exact round-half-up to tenths, with the same floating-point caveat.
- QuestionStats.Percent: `Math.round` is modelled as exact round-half-up.
- QuestionStats.Distinct: JavaScript objects list integer-like keys first in numeric order. Here keys keep declaration order. Option names and stored answers that name an `Object.prototype` property (such as "constructor" or "toString") are not modelled. For such an answer the source's `counts[resp] !== undefined` holds, `counts[resp]++` adds a NaN entry, and the displayed total and every percentage break. QuestionStats.CountAnswers, QuestionStats.TallyMatchesOptions, QuestionStats.UnansweredResponseChangesNothing and Export.ChoiceRows therefore hold only for answers that are not such property names.
- Text.ParseInt: the `0x` hexadecimal prefix and the loss of precision on very long digit runs are not modelled.
- Auth.Login: the `companyId` argument is accepted and ignored, as in the source. Users carrying fields other than those listed are not modelled.
- SurveyStore.UpdateSurvey: patches only cover title, description and questions. A patch that overwrites `id` or `created_at` is not modelled.
- Unknown question types: the editor only offers the three kinds, so the type is a closed datatype with no default branch.
- Display-only counters on the dashboard and reports pages are left out. They are one-line filters over the stores.

## Findings

| source | as written | input that shows it | evidently intended | confidence | as-written member | corrected member |
|---|---|---|---|---|---|---|
| src/contexts/SurveyContext.jsx:101-104 | `hasUserCompletedSurvey` looks for `r.user_id`, but `submitResponse` (line 65) stores the identifier it is given (the user's id, src/pages/TakeSurvey.jsx:76) as `user_email`, so the "Already Completed" screen never appears for new submissions | any user submitting any survey, then opening it again | the check reads the field submissions write, so a user who has submitted sees "Already Completed" | high (the source comment calls the check a leftover of an older user system); not executed | SurveyForm.ResubmissionStillOffered | SurveyForm.SubmissionCompletes |
