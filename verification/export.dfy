/**
 * The export engine: the optional date filter, the "nothing to export" guard,
 * the flat spreadsheet rows and the format-neutral content of the PDF report,
 * plus the names of the generated files.
 */
module Export {
  import opened Wrappers
  import opened SurveyData
  import opened Text
  import opened QuestionStats
  import opened Seqs

  /** A date range picked by the caller; either end may be missing. */
  datatype DateRange = DateRange(from: Option<int>, to: Option<int>)

  /** The filter applies only when a range with both ends is given. */
  predicate Applies(range: Option<DateRange>) {
    range.Some? && range.value.from.Some? && range.value.to.Some?
  }

  /** Inclusive at both ends. */
  predicate InRange(r: Response, range: DateRange)
    requires range.from.Some? && range.to.Some?
  {
    range.from.value <= r.submittedAt <= range.to.value
  }

  /** The responses an export works on. */
  function FilterByDate(responses: seq<Response>, range: Option<DateRange>): (kept: seq<Response>)
    ensures !Applies(range) ==> kept == responses
    ensures Applies(range) ==> forall r :: r in kept <==> r in responses && InRange(r, range.value)
    ensures |kept| <= |responses|
  {
    if Applies(range) then Filter(responses, (r: Response) => InRange(r, range.value)) else responses
  }

  /** Filtering keeps the stored order: it works batch by batch. */
  lemma FilterKeepsOrder(a: seq<Response>, b: seq<Response>, range: Option<DateRange>)
    ensures FilterByDate(a + b, range) == FilterByDate(a, range) + FilterByDate(b, range)
  {
    if Applies(range) {
      FilterAppend(a, b, (r: Response) => InRange(r, range.value));
    }
  }

  /** The outcome of an export: the destructive "No data to export" notice, or a named file. */
  datatype ExportResult<T> = NoDataToExport | Exported(fileName: string, content: T)

  const NoDataTitle := "No data to export"
  const NoDataDescription := "There are no responses in the selected date range."

  /** `title.replace(/\s+/g, '_') + suffix`. */
  function FileName(title: string, suffix: string): (name: string)
    ensures |name| >= |suffix| && name[|name| - |suffix|..] == suffix
    ensures NoSpaces(name[..|name| - |suffix|])
  {
    CollapseHasNoSpaces(title);
    var name := CollapseSpaces(title) + suffix;
    assert name[..|name| - |suffix|] == CollapseSpaces(title);
    name
  }

  /** Naming a file after an already generated name's prefix gives the same name. */
  lemma FileNameStable(title: string, suffix: string)
    ensures var name := FileName(title, suffix);
      FileName(name[..|name| - |suffix|], suffix) == name
  {
    CollapseIdempotent(title);
    var name := FileName(title, suffix);
    assert name[..|name| - |suffix|] == CollapseSpaces(title);
  }

  const SpreadsheetSuffix := "_Responses.xlsx"
  const ReportSuffix := "_Report.pdf"

  /** One spreadsheet row: respondent, submission time, question text, answer. */
  datatype Row = Row(respondent: string, submittedAt: int, question: string, answer: string)

  /** The stored answer, or "N/A" when it is missing or empty. */
  function AnswerCell(r: Response, q: Question): (cell: string)
    ensures Answered(AnswerTo(r, q.id)) ==> cell == r.answers[q.id]
    ensures !Answered(AnswerTo(r, q.id)) ==> cell == "N/A"
  {
    var a := AnswerTo(r, q.id);
    if Answered(a) then a.value else "N/A"
  }

  function RowFor(r: Response, q: Question): Row {
    Row(r.userEmail, r.submittedAt, q.text, AnswerCell(r, q))
  }

  function RowsOfResponse(r: Response, questions: seq<Question>): (rows: seq<Row>)
    ensures |rows| == |questions|
    ensures forall j :: 0 <= j < |questions| ==> rows[j] == RowFor(r, questions[j])
  {
    seq(|questions|, j requires 0 <= j < |questions| => RowFor(r, questions[j]))
  }

  /** One row per response × question, response-major. */
  function Rows(responses: seq<Response>, questions: seq<Question>): (rows: seq<Row>)
    ensures |rows| == |responses| * |questions|
  {
    if responses == [] then []
    else
      var n := |responses|;
      var rows := Rows(responses[..n - 1], questions) + RowsOfResponse(responses[n - 1], questions);
      assert |rows| == (n - 1) * |questions| + |questions| == n * |questions|;
      rows
  }

  lemma PositionBounds(i: nat, j: nat, n: nat, m: nat)
    requires i < n && j < m
    ensures i * m + j < n * m
    ensures i < n - 1 ==> i * m + j < (n - 1) * m
    ensures i == n - 1 ==> i * m + j - (n - 1) * m == j
  {
    assert i * m + m == (i + 1) * m;
    MultiplyMonotone(i + 1, n, m);
    if i < n - 1 {
      MultiplyMonotone(i + 1, n - 1, m);
    } else {
      assert i * m == (n - 1) * m;
    }
  }

  lemma MultiplyMonotone(a: nat, b: nat, m: nat)
    requires a <= b
    ensures a * m <= b * m
  {
    assert b * m == a * m + (b - a) * m;
  }

  /** The row at position i·|questions| + j pairs response i with question j. */
  lemma {:induction false} RowAt(responses: seq<Response>, questions: seq<Question>, i: nat, j: nat)
    requires i < |responses| && j < |questions|
    ensures i * |questions| + j < |Rows(responses, questions)|
    ensures Rows(responses, questions)[i * |questions| + j] == RowFor(responses[i], questions[j])
  {
    var n := |responses|;
    var m := |questions|;
    PositionBounds(i, j, n, m);
    var init := responses[..n - 1];
    assert Rows(responses, questions) == Rows(init, questions) + RowsOfResponse(responses[n - 1], questions);
    assert |Rows(init, questions)| == (n - 1) * m;
    if i < n - 1 {
      RowAt(init, questions, i, j);
    }
  }

  /** The response-major position of response i's cell for question j, with m questions. */
  function Position(i: nat, j: nat, m: nat): nat {
    i * m + j
  }

  /** Every response × question pair sits at its response-major position. */
  lemma RowsAt(responses: seq<Response>, questions: seq<Question>)
    ensures forall i, j :: 0 <= i < |responses| && 0 <= j < |questions| ==>
      && Position(i, j, |questions|) < |Rows(responses, questions)|
      && Rows(responses, questions)[Position(i, j, |questions|)] == RowFor(responses[i], questions[j])
  {
    forall i, j | 0 <= i < |responses| && 0 <= j < |questions|
      ensures Position(i, j, |questions|) < |Rows(responses, questions)|
      ensures Rows(responses, questions)[Position(i, j, |questions|)] == RowFor(responses[i], questions[j])
    {
      RowAt(responses, questions, i, j);
    }
  }

  /** `exportToExcel`: the spreadsheet rows, or the notice when no response is left after filtering. */
  function ExportToExcel(survey: Survey, responses: seq<Response>, range: Option<DateRange>): (e: ExportResult<seq<Row>>)
    ensures e.NoDataToExport? <==> FilterByDate(responses, range) == []
    ensures e.Exported? ==>
      && e.fileName == CollapseSpaces(survey.title) + SpreadsheetSuffix
      && |e.content| == |FilterByDate(responses, range)| * |survey.questions|
    ensures e.Exported? ==>
      var filtered := FilterByDate(responses, range);
      forall i, j :: 0 <= i < |filtered| && 0 <= j < |survey.questions| ==>
        && Position(i, j, |survey.questions|) < |e.content|
        && e.content[Position(i, j, |survey.questions|)] == RowFor(filtered[i], survey.questions[j])
  {
    var filtered := FilterByDate(responses, range);
    if filtered == [] then NoDataToExport
    else
      RowsAt(filtered, survey.questions);
      Exported(FileName(survey.title, SpreadsheetSuffix), Rows(filtered, survey.questions))
  }

  /** One line of a multiple-choice table: option, count and percentage in tenths. */
  datatype ChoiceRow = ChoiceRow(option: string, count: nat, percentTenths: nat)

  /** The type-specific part of a report section. */
  datatype Body =
    | ChoiceTable(rows: seq<ChoiceRow>)
    | AverageRating(tenths: Option<int>)          // None renders as "N/A"
    | TextTable(preview: seq<string>, hidden: nat) // hidden > 0 adds "...and K more responses."
    | NoTextResponses

  datatype Section = Section(number: nat, questionText: string, body: Body)

  /** Title block, totals line, and one section per question in survey order. */
  datatype Report = Report(title: string, description: string, totalResponses: nat, sections: seq<Section>)

  const PreviewLimit := 5

  /** `((count / total) * 100).toFixed(1)` as tenths of a percent, rounded half up; 0 when total is 0. */
  function PercentTenths(count: nat, total: nat): (t: nat)
    ensures total == 0 ==> t == 0
    ensures total > 0 ==> 2 * t * total - total <= 2000 * count < 2 * t * total + total
  {
    if total == 0 then 0 else (2000 * count + total) / (2 * total)
  }

  /** The count a tally records for an option, 0 when the option is not a key. */
  function CountFor(counts: seq<OptionCount>, o: string): nat {
    if counts == [] then 0
    else if counts[0].option == o then counts[0].count
    else CountFor(counts[1..], o)
  }

  lemma {:induction false} CountForFinds(counts: seq<OptionCount>, i: nat)
    requires i < |counts| && NoDuplicates(Options(counts))
    ensures CountFor(counts, counts[i].option) == counts[i].count
  {
    if i > 0 {
      assert Options(counts[1..]) == Options(counts)[1..];
      assert counts[0].option != counts[i].option by {
        assert Options(counts)[0] != Options(counts)[i];
      }
      CountForFinds(counts[1..], i - 1);
    }
  }

  function ChoiceRows(q: Question, filtered: seq<Response>): (rows: seq<ChoiceRow>)
    ensures |rows| == |q.options|
    ensures forall i :: 0 <= i < |rows| ==> rows[i].option == q.options[i]
  {
    var counts := CountAnswers(Distinct(q.options), AnswersTo(filtered, q.id));
    seq(|q.options|, i requires 0 <= i < |q.options| =>
      var c := CountFor(counts, q.options[i]);
      ChoiceRow(q.options[i], c, PercentTenths(c, |filtered|)))
  }

  function RatingBody(answers: seq<Option<string>>): (b: Body)
    ensures b.AverageRating?
    ensures b.tenths.None? <==> Ratings(answers) == []
    ensures b.tenths.Some? ==> RoundsToTenths(Sum(Ratings(answers)), |Ratings(answers)|, b.tenths.value)
  {
    var ratings := Ratings(answers);
    if |ratings| > 0 then AverageRating(Some(AverageTenths(Sum(ratings), |ratings|)))
    else AverageRating(None)
  }

  function TextBody(answers: seq<Option<string>>): (b: Body)
    ensures b.NoTextResponses? || b.TextTable?
    ensures b.TextTable? ==>
      && 0 < |b.preview| <= PreviewLimit
      && |b.preview| + b.hidden == |NonEmptyAnswers(answers)|
      && b.preview == NonEmptyAnswers(answers)[..|b.preview|]
  {
    var texts := NonEmptyAnswers(answers);
    if |texts| == 0 then NoTextResponses
    else if |texts| > PreviewLimit then TextTable(texts[..PreviewLimit], |texts| - PreviewLimit)
    else TextTable(texts, 0)
  }

  function SectionFor(index: nat, q: Question, filtered: seq<Response>): Section {
    var body := match q.kind
      case MultipleChoice => ChoiceTable(ChoiceRows(q, filtered))
      case Rating => RatingBody(AnswersTo(filtered, q.id))
      case Text => TextBody(AnswersTo(filtered, q.id));
    Section(index + 1, q.text, body)
  }

  function ReportContent(survey: Survey, filtered: seq<Response>): Report {
    Report(survey.title, survey.description, |filtered|,
      seq(|survey.questions|, i requires 0 <= i < |survey.questions| => SectionFor(i, survey.questions[i], filtered)))
  }

  /** `exportToPDF`: the report content, or the notice when no response is left after filtering. */
  function ExportToPdf(survey: Survey, responses: seq<Response>, range: Option<DateRange>): (e: ExportResult<Report>)
    ensures e.NoDataToExport? <==> FilterByDate(responses, range) == []
    ensures e.Exported? ==>
      && e.fileName == CollapseSpaces(survey.title) + ReportSuffix
      && e.content.totalResponses == |FilterByDate(responses, range)|
      && |e.content.sections| == |survey.questions|
    ensures e.Exported? ==>
      && e.content.title == survey.title && e.content.description == survey.description
      && forall i :: 0 <= i < |survey.questions| ==>
           e.content.sections[i] == SectionFor(i, survey.questions[i], FilterByDate(responses, range))
  {
    var filtered := FilterByDate(responses, range);
    if filtered == [] then NoDataToExport
    else Exported(FileName(survey.title, ReportSuffix), ReportContent(survey, filtered))
  }

  /**
   * Sections follow the survey's questions: numbered index + 1, carrying the
   * question text and a body of the question's kind.
   */
  lemma ReportSections(survey: Survey, filtered: seq<Response>, i: nat)
    requires i < |survey.questions|
    ensures var s := ReportContent(survey, filtered).sections[i];
      && s.number == i + 1
      && s.questionText == survey.questions[i].text
      && (survey.questions[i].kind == MultipleChoice <==> s.body.ChoiceTable?)
      && (survey.questions[i].kind == Rating <==> s.body.AverageRating?)
      && (survey.questions[i].kind == Text <==> s.body.TextTable? || s.body.NoTextResponses?)
      && (survey.questions[i].kind == MultipleChoice ==> s.body == ChoiceTable(ChoiceRows(survey.questions[i], filtered)))
      && (survey.questions[i].kind == Rating ==> s.body == RatingBody(AnswersTo(filtered, survey.questions[i].id)))
      && (survey.questions[i].kind == Text ==> s.body == TextBody(AnswersTo(filtered, survey.questions[i].id)))
  {
  }

  /**
   * In an exported report, the section of a multiple-choice question lists
   * each declared option with the number of date-filtered responses choosing
   * it and its percentage of all date-filtered responses.
   */
  lemma ExportedChoiceCounts(survey: Survey, responses: seq<Response>, range: Option<DateRange>, i: nat)
    requires FilterByDate(responses, range) != []
    requires i < |survey.questions| && survey.questions[i].kind == MultipleChoice
    ensures var q := survey.questions[i];
      var filtered := FilterByDate(responses, range);
      var body := ExportToPdf(survey, responses, range).content.sections[i].body;
      && body.ChoiceTable?
      && |body.rows| == |q.options|
      && forall k :: 0 <= k < |body.rows| ==>
           && body.rows[k].option == q.options[k]
           && body.rows[k].count == Occurrences(AnswersTo(filtered, q.id), q.options[k])
           && body.rows[k].percentTenths == PercentTenths(body.rows[k].count, |filtered|)
  {
    ChoiceRowsExact(survey.questions[i], FilterByDate(responses, range));
  }

  /**
   * In an exported report, the section of a rating question shows "N/A"
   * exactly when no date-filtered answer parses, and otherwise the mean of
   * the parsed answers rounded to a tenth.
   */
  lemma ExportedRatingAverage(survey: Survey, responses: seq<Response>, range: Option<DateRange>, i: nat)
    requires FilterByDate(responses, range) != []
    requires i < |survey.questions| && survey.questions[i].kind == Rating
    ensures var answers := AnswersTo(FilterByDate(responses, range), survey.questions[i].id);
      var body := ExportToPdf(survey, responses, range).content.sections[i].body;
      && body.AverageRating?
      && (body.tenths.None? <==> forall k :: 0 <= k < |answers| ==> answers[k].None? || ParseInt(answers[k].value).None?)
      && (body.tenths.Some? ==> RoundsToTenths(Sum(Ratings(answers)), |Ratings(answers)|, body.tenths.value))
  {
    RatingBodyExact(AnswersTo(FilterByDate(responses, range), survey.questions[i].id));
  }

  /**
   * A report table has one row per declared option, in declared order; the
   * count is the number of filtered responses choosing that option and the
   * percentage is taken over all filtered responses.
   */
  lemma ChoiceRowsExact(q: Question, filtered: seq<Response>)
    ensures var rows := ChoiceRows(q, filtered);
      forall i :: 0 <= i < |rows| ==>
        && rows[i].option == q.options[i]
        && rows[i].count == Occurrences(AnswersTo(filtered, q.id), q.options[i])
        && rows[i].percentTenths == PercentTenths(rows[i].count, |filtered|)
  {
    var counts := CountAnswers(Distinct(q.options), AnswersTo(filtered, q.id));
    forall i | 0 <= i < |q.options|
      ensures CountFor(counts, q.options[i]) == Occurrences(AnswersTo(filtered, q.id), q.options[i])
    {
      assert q.options[i] in Distinct(q.options);
      var k :| 0 <= k < |Distinct(q.options)| && Distinct(q.options)[k] == q.options[i];
      assert counts[k].option == q.options[i] by { assert Options(counts)[k] == counts[k].option; }
      CountForFinds(counts, k);
    }
  }

  lemma {:induction false} DistinctOfDistinct(xs: seq<string>)
    requires NoDuplicates(xs)
    ensures Distinct(xs) == xs
  {
    if xs != [] {
      var init := xs[..|xs| - 1];
      assert NoDuplicates(init) by {
        forall i, j | 0 <= i < j < |init| ensures init[i] != init[j] {
          assert init[i] == xs[i] && init[j] == xs[j];
        }
      }
      DistinctOfDistinct(init);
      assert xs[|xs| - 1] !in init;
      assert xs == init + [xs[|xs| - 1]];
    }
  }

  function SumRowCounts(rows: seq<ChoiceRow>): nat {
    if rows == [] then 0 else SumRowCounts(rows[..|rows| - 1]) + rows[|rows| - 1].count
  }

  lemma {:induction false} SumRowCountsOfTally(rows: seq<ChoiceRow>, counts: seq<OptionCount>)
    requires |rows| == |counts|
    requires forall i :: 0 <= i < |rows| ==> rows[i].count == counts[i].count
    ensures SumRowCounts(rows) == SumCounts(counts)
  {
    if rows != [] {
      SumRowCountsOfTally(rows[..|rows| - 1], counts[..|counts| - 1]);
    }
  }

  /**
   * With distinct options each filtered response lands in at most one row,
   * so the table's counts add up to at most the number of filtered responses.
   */
  lemma ChoiceRowsSum(q: Question, filtered: seq<Response>)
    requires NoDuplicates(q.options)
    ensures SumRowCounts(ChoiceRows(q, filtered)) <= |filtered|
  {
    var answers := AnswersTo(filtered, q.id);
    DistinctOfDistinct(q.options);
    var counts := CountAnswers(q.options, answers);
    ChoiceRowsExact(q, filtered);
    SumRowCountsOfTally(ChoiceRows(q, filtered), counts);
    CountAnswersSum(q.options, answers);
    AnsweredWithinBound(answers, q.options);
  }

  lemma PercentTenthsRange(count: nat, total: nat)
    requires count <= total
    ensures PercentTenths(count, total) <= 1000
    ensures 0 < total && count == total ==> PercentTenths(count, total) == 1000
  {
    if total > 0 {
      var t := PercentTenths(count, total);
      assert 2 * (t - 1000) * total <= total;
      DoubleMultipleBelow(t - 1000, total);
      if count == total {
        assert 2 * (1000 - t) * total < total;
        DoubleMultipleBelow(1000 - t, total);
      }
    }
  }

  lemma {:induction false} RatingsEmpty(answers: seq<Option<string>>)
    ensures Ratings(answers) == [] <==>
      forall i :: 0 <= i < |answers| ==> answers[i].None? || ParseInt(answers[i].value).None?
  {
    if answers != [] {
      var init := answers[..|answers| - 1];
      RatingsEmpty(init);
      assert forall i :: 0 <= i < |init| ==> init[i] == answers[i];
    }
  }

  /**
   * The report's rating line shows "N/A" exactly when no filtered answer
   * parses as an integer; otherwise the average of the parsed answers to
   * one decimal.
   */
  lemma RatingBodyExact(answers: seq<Option<string>>)
    ensures RatingBody(answers).tenths.None? <==>
      forall i :: 0 <= i < |answers| ==> answers[i].None? || ParseInt(answers[i].value).None?
    ensures RatingBody(answers).tenths.Some? ==>
      var ratings := Ratings(answers);
      var t := RatingBody(answers).tenths.value;
      RoundsToTenths(Sum(ratings), |ratings|, t)
  {
    RatingsEmpty(answers);
  }

  /**
   * The report's text part previews the first min(5, n) non-empty answers,
   * notes the n − 5 others when there are more than five, and says
   * "No text responses." exactly when there are none.
   */
  lemma TextBodyExact(answers: seq<Option<string>>)
    ensures var texts := NonEmptyAnswers(answers);
      && (TextBody(answers).NoTextResponses? <==> |texts| == 0)
      && (TextBody(answers).TextTable? ==>
            && TextBody(answers).preview == texts[..if |texts| < PreviewLimit then |texts| else PreviewLimit]
            && (TextBody(answers).hidden > 0 <==> |texts| > PreviewLimit)
            && |TextBody(answers).preview| + TextBody(answers).hidden == |texts|)
  {
    var texts := NonEmptyAnswers(answers);
    assert texts[..|texts|] == texts;
  }
}
