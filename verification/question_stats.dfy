/**
 * Per-question statistics shown on a survey's detail page: the tally of a
 * multiple-choice question, the count and average of a rating question and
 * the list of text answers, together with the display percentages.
 */
module QuestionStats {
  import opened Wrappers
  import opened SurveyData
  import opened Text

  datatype OptionCount = OptionCount(option: string, count: nat)

  /** The statistic of one question; its shape follows the question's kind. */
  datatype Stats =
    | Tally(counts: seq<OptionCount>)
    | RatingSummary(sum: int, count: nat)
    | TextAnswers(answers: seq<string>)

  predicate NoDuplicates(xs: seq<string>) {
    forall i, j :: 0 <= i < j < |xs| ==> xs[i] != xs[j]
  }

  /**
   * The keys of the counting object built from the option list: every option
   * once, in order of first occurrence (duplicates collapse into one key).
   */
  function Distinct(xs: seq<string>): (d: seq<string>)
    ensures forall x :: x in d <==> x in xs
    ensures NoDuplicates(d)
    ensures |d| <= |xs|
  {
    if xs == [] then []
    else
      var d := Distinct(xs[..|xs| - 1]);
      var x := xs[|xs| - 1];
      assert xs == xs[..|xs| - 1] + [x];
      if x in d then d else d + [x]
  }

  /** Reference count: how many answers select option `o`; an empty answer never selects anything. */
  function Occurrences(answers: seq<Option<string>>, o: string): nat {
    if answers == [] then 0
    else Occurrences(answers[..|answers| - 1], o)
         + (if Answered(answers[|answers| - 1]) && answers[|answers| - 1].value == o then 1 else 0)
  }

  function Options(counts: seq<OptionCount>): (keys: seq<string>)
    ensures |keys| == |counts|
    ensures forall i :: 0 <= i < |counts| ==> keys[i] == counts[i].option
  {
    seq(|counts|, i requires 0 <= i < |counts| => counts[i].option)
  }

  /** Every key starts at zero. */
  function ZeroCounts(keys: seq<string>): (counts: seq<OptionCount>)
    ensures Options(counts) == keys
    ensures forall i :: 0 <= i < |counts| ==> counts[i].count == 0
  {
    seq(|keys|, i requires 0 <= i < |keys| => OptionCount(keys[i], 0))
  }

  /** One step of the counting pass: a non-empty answer bumps the key equal to it, if there is one. */
  function Bump(counts: seq<OptionCount>, a: Option<string>): (next: seq<OptionCount>)
    ensures Options(next) == Options(counts)
  {
    seq(|counts|, i requires 0 <= i < |counts| =>
      if Answered(a) && counts[i].option == a.value
      then OptionCount(counts[i].option, counts[i].count + 1)
      else counts[i])
  }

  /**
   * The counting pass over the answers in response order. Each key ends up
   * holding exactly the number of answers that select it.
   */
  function CountAnswers(keys: seq<string>, answers: seq<Option<string>>): (counts: seq<OptionCount>)
    ensures Options(counts) == keys
    ensures forall i :: 0 <= i < |counts| ==> counts[i].count == Occurrences(answers, keys[i])
  {
    if answers == [] then ZeroCounts(keys)
    else Bump(CountAnswers(keys, answers[..|answers| - 1]), answers[|answers| - 1])
  }

  /** The integers the rating answers parse to, in response order; absent and unparsable answers are skipped. */
  function Ratings(answers: seq<Option<string>>): (rs: seq<int>)
    ensures |rs| <= |answers|
  {
    if answers == [] then []
    else
      var prefix := Ratings(answers[..|answers| - 1]);
      var a := answers[|answers| - 1];
      if a.Some? && ParseInt(a.value).Some? then prefix + [ParseInt(a.value).value] else prefix
  }

  /** Every answer is counted exactly when every answer is present and parses. */
  lemma {:induction false} RatingsCountAll(answers: seq<Option<string>>)
    ensures |Ratings(answers)| == |answers| <==>
      forall i :: 0 <= i < |answers| ==> answers[i].Some? && ParseInt(answers[i].value).Some?
  {
    if answers != [] {
      var init := answers[..|answers| - 1];
      RatingsCountAll(init);
      assert forall i :: 0 <= i < |init| ==> init[i] == answers[i];
    }
  }

  function Sum(xs: seq<int>): int {
    if xs == [] then 0 else Sum(xs[..|xs| - 1]) + xs[|xs| - 1]
  }

  /** The non-empty answers, in response order. */
  function NonEmptyAnswers(answers: seq<Option<string>>): (texts: seq<string>)
    ensures |texts| <= |answers|
    ensures |texts| == |answers| <==> forall i :: 0 <= i < |answers| ==> Answered(answers[i])
  {
    if answers == [] then []
    else
      var prefix := NonEmptyAnswers(answers[..|answers| - 1]);
      var a := answers[|answers| - 1];
      if Answered(a) then prefix + [a.value] else prefix
  }

  /** `getQuestionStats`: the statistic of one question over the survey's responses. */
  function StatsOf(q: Question, responses: seq<Response>): (s: Stats)
    ensures q.kind == MultipleChoice <==> s.Tally?
    ensures q.kind == Rating <==> s.RatingSummary?
    ensures q.kind == Text <==> s.TextAnswers?
  {
    var answers := AnswersTo(responses, q.id);
    match q.kind
    case MultipleChoice => Tally(CountAnswers(Distinct(q.options), answers))
    case Rating =>
      var ratings := Ratings(answers);
      RatingSummary(Sum(ratings), |ratings|)
    case Text => TextAnswers(NonEmptyAnswers(answers))
  }

  /**
   * The keys of a multiple-choice tally are exactly the declared options,
   * each once; each count is the number of responses choosing that option,
   * so with no responses every count is zero.
   */
  lemma TallyMatchesOptions(q: Question, responses: seq<Response>)
    requires q.kind == MultipleChoice
    ensures var counts := StatsOf(q, responses).counts;
      && (forall o :: o in Options(counts) <==> o in q.options)
      && NoDuplicates(Options(counts))
      && (forall i :: 0 <= i < |counts| ==>
            counts[i].count == Occurrences(AnswersTo(responses, q.id), counts[i].option))
      && (responses == [] ==> forall i :: 0 <= i < |counts| ==> counts[i].count == 0)
  {
  }

  function SumCounts(counts: seq<OptionCount>): nat {
    if counts == [] then 0 else SumCounts(counts[..|counts| - 1]) + counts[|counts| - 1].count
  }

  /** How many answers are non-empty and one of the given keys. */
  function AnsweredWithin(answers: seq<Option<string>>, keys: seq<string>): nat {
    if answers == [] then 0
    else AnsweredWithin(answers[..|answers| - 1], keys)
         + (if Answered(answers[|answers| - 1]) && answers[|answers| - 1].value in keys then 1 else 0)
  }

  lemma {:induction false} BumpSum(counts: seq<OptionCount>, a: Option<string>)
    requires NoDuplicates(Options(counts))
    ensures SumCounts(Bump(counts, a)) == SumCounts(counts) + (if Answered(a) && a.value in Options(counts) then 1 else 0)
  {
    if counts != [] {
      var n := |counts|;
      var init := counts[..n - 1];
      assert Options(init) == Options(counts)[..n - 1];
      assert Bump(counts, a)[..n - 1] == Bump(init, a);
      BumpSum(init, a);
      assert a.Some? && a.value in Options(counts) ==>
        (a.value in Options(init) <==> a.value != counts[n - 1].option);
    }
  }

  lemma {:induction false} CountAnswersSum(keys: seq<string>, answers: seq<Option<string>>)
    requires NoDuplicates(keys)
    ensures SumCounts(CountAnswers(keys, answers)) == AnsweredWithin(answers, keys)
  {
    if answers == [] {
      ZeroSum(ZeroCounts(keys));
    } else {
      CountAnswersSum(keys, answers[..|answers| - 1]);
      BumpSum(CountAnswers(keys, answers[..|answers| - 1]), answers[|answers| - 1]);
    }
  }

  lemma {:induction false} ZeroSum(counts: seq<OptionCount>)
    requires forall i :: 0 <= i < |counts| ==> counts[i].count == 0
    ensures SumCounts(counts) == 0
  {
    if counts != [] {
      ZeroSum(counts[..|counts| - 1]);
    }
  }

  lemma {:induction false} AnsweredWithinBound(answers: seq<Option<string>>, keys: seq<string>)
    ensures AnsweredWithin(answers, keys) <= |answers|
    ensures AnsweredWithin(answers, keys) == |answers| <==>
      forall i :: 0 <= i < |answers| ==> Answered(answers[i]) && answers[i].value in keys
  {
    if answers != [] {
      var init := answers[..|answers| - 1];
      AnsweredWithinBound(init, keys);
      assert forall i :: 0 <= i < |init| ==> init[i] == answers[i];
    }
  }

  /**
   * Each response adds to at most one option, so the counts sum to at most
   * the number of responses, with equality exactly when every response chose
   * one of the declared options.
   */
  lemma TallySum(q: Question, responses: seq<Response>)
    requires q.kind == MultipleChoice
    ensures SumCounts(StatsOf(q, responses).counts) <= |responses|
    ensures SumCounts(StatsOf(q, responses).counts) == |responses| <==>
      forall i :: 0 <= i < |responses| ==>
        Answered(AnswerTo(responses[i], q.id)) && AnswerTo(responses[i], q.id).value in q.options
  {
    var answers := AnswersTo(responses, q.id);
    var keys := Distinct(q.options);
    CountAnswersSum(keys, answers);
    AnsweredWithinBound(answers, keys);
  }

  /** A response that does not answer a question leaves that question's statistic unchanged. */
  lemma UnansweredResponseChangesNothing(q: Question, responses: seq<Response>, r: Response)
    requires q.id !in r.answers
    ensures StatsOf(q, responses + [r]) == StatsOf(q, responses)
  {
    var before := AnswersTo(responses, q.id);
    var after := AnswersTo(responses + [r], q.id);
    assert after[..|after| - 1] == before;
    assert after[|after| - 1] == None;
  }

  /** The rating strings the survey form produces: "1" to "5". */
  predicate IsRatingChoice(s: string) {
    exists k :: 1 <= k <= 5 && s == Decimal(k)
  }

  lemma {:induction false} RatingsFromChoices(answers: seq<Option<string>>)
    requires forall i :: 0 <= i < |answers| ==> answers[i].None? || IsRatingChoice(answers[i].value)
    ensures |Ratings(answers)| == |answers| - |NoneAnswers(answers)|
    ensures forall i :: 0 <= i < |Ratings(answers)| ==> 1 <= Ratings(answers)[i] <= 5
  {
    if answers != [] {
      var init := answers[..|answers| - 1];
      assert forall i :: 0 <= i < |init| ==> init[i] == answers[i];
      RatingsFromChoices(init);
      var a := answers[|answers| - 1];
      if a.Some? {
        var k :| 1 <= k <= 5 && a.value == Decimal(k);
        ParseDecimal(k);
      }
    }
  }

  /** The positions of absent answers. */
  function NoneAnswers(answers: seq<Option<string>>): seq<nat> {
    if answers == [] then []
    else NoneAnswers(answers[..|answers| - 1]) + (if answers[|answers| - 1].None? then [|answers| - 1] else [])
  }

  lemma {:induction false} SumBounds(xs: seq<int>)
    requires forall i :: 0 <= i < |xs| ==> 1 <= xs[i] <= 5
    ensures |xs| <= Sum(xs) <= 5 * |xs|
  {
    if xs != [] {
      SumBounds(xs[..|xs| - 1]);
    }
  }

  /**
   * With every answer drawn from "1".."5" or absent, the rating count is the
   * number of answers given and the sum lies between count and 5 × count.
   */
  lemma RatingBounds(q: Question, responses: seq<Response>)
    requires q.kind == Rating
    requires forall i :: 0 <= i < |responses| ==>
      var a := AnswerTo(responses[i], q.id); a.None? || IsRatingChoice(a.value)
    ensures var s := StatsOf(q, responses);
      && s.count == |responses| - |NoneAnswers(AnswersTo(responses, q.id))|
      && s.count <= s.sum <= 5 * s.count
  {
    var answers := AnswersTo(responses, q.id);
    RatingsFromChoices(answers);
    SumBounds(Ratings(answers));
  }

  /**
   * The text statistic holds exactly the non-empty answers: never more than
   * there are responses, each non-empty, and each one some response's answer.
   */
  lemma {:induction false} NonEmptyAnswersExact(answers: seq<Option<string>>)
    ensures |NonEmptyAnswers(answers)| <= |answers|
    ensures forall x :: x in NonEmptyAnswers(answers) <==>
      exists i :: 0 <= i < |answers| && answers[i] == Some(x) && x != ""
  {
    if answers != [] {
      var init := answers[..|answers| - 1];
      NonEmptyAnswersExact(init);
      assert forall i :: 0 <= i < |init| ==> init[i] == answers[i];
      forall x | x in NonEmptyAnswers(answers)
        ensures exists i :: 0 <= i < |answers| && answers[i] == Some(x) && x != ""
      {
        if x !in NonEmptyAnswers(init) {
          assert answers[|answers| - 1] == Some(x);
        }
      }
    }
  }

  /** Response order is kept: the text answers of two batches are the answers of each, one after the other. */
  lemma {:induction false} NonEmptyAnswersAppend(a: seq<Option<string>>, b: seq<Option<string>>)
    ensures NonEmptyAnswers(a + b) == NonEmptyAnswers(a) + NonEmptyAnswers(b)
    decreases |b|
  {
    if b != [] {
      assert (a + b)[..|a + b| - 1] == a + b[..|b| - 1];
      NonEmptyAnswersAppend(a, b[..|b| - 1]);
    } else {
      assert a + b == a;
    }
  }

  /**
   * `Math.round(count / total × 100)`: the percentage rounded half up, and 0
   * when nothing was tallied.
   */
  function Percent(count: nat, total: nat): (p: nat)
    ensures total == 0 ==> p == 0
    ensures total > 0 ==> 2 * p * total - total <= 200 * count < 2 * p * total + total
  {
    if total == 0 then 0 else (200 * count + total) / (2 * total)
  }

  /** A multiple of a positive number that is below its double is at most zero. */
  lemma DoubleMultipleBelow(k: int, x: int)
    requires x > 0 && 2 * k * x <= x
    ensures k <= 0
  {
  }

  lemma PercentRange(count: nat, total: nat)
    requires count <= total
    ensures Percent(count, total) <= 100
    ensures 0 < total && count == total ==> Percent(count, total) == 100
    ensures count == 0 ==> Percent(count, total) == 0
  {
    if total > 0 {
      var p := Percent(count, total);
      assert 2 * p * total - total <= 200 * total;
      assert 2 * (p - 100) * total <= total;
      DoubleMultipleBelow(p - 100, total);
      if count == total {
        assert 2 * (100 - p) * total < total;
        DoubleMultipleBelow(100 - p, total);
      }
      if count == 0 {
        assert 2 * p * total <= total;
        DoubleMultipleBelow(p, total);
      }
    }
  }

  /**
   * The percentages the detail page shows next to each option: the
   * denominator is the sum of all option counts, not the number of responses.
   */
  function DisplayPercentages(counts: seq<OptionCount>): (ps: seq<nat>)
    ensures |ps| == |counts|
  {
    var total := SumCounts(counts);
    seq(|counts|, i requires 0 <= i < |counts| => Percent(counts[i].count, total))
  }

  lemma {:induction false} CountWithinSum(counts: seq<OptionCount>, i: nat)
    requires i < |counts|
    ensures counts[i].count <= SumCounts(counts)
  {
    if i < |counts| - 1 {
      CountWithinSum(counts[..|counts| - 1], i);
    }
  }

  /**
   * Every display percentage lies in 0..100; all are 0 when nothing was
   * tallied; an option holding every tally shows 100.
   */
  lemma DisplayPercentagesRange(counts: seq<OptionCount>)
    ensures var ps := DisplayPercentages(counts);
      && (forall i :: 0 <= i < |ps| ==> ps[i] <= 100)
      && (SumCounts(counts) == 0 ==> forall i :: 0 <= i < |ps| ==> ps[i] == 0)
      && (forall i :: 0 <= i < |ps| && 0 < counts[i].count == SumCounts(counts) ==> ps[i] == 100)
  {
    forall i | 0 <= i < |counts|
      ensures var p := DisplayPercentages(counts)[i];
        && p <= 100
        && (SumCounts(counts) == 0 ==> p == 0)
        && (0 < counts[i].count == SumCounts(counts) ==> p == 100)
    {
      DisplayPercentageAt(counts, i);
    }
  }

  lemma DisplayPercentageAt(counts: seq<OptionCount>, i: nat)
    requires i < |counts|
    ensures var p := DisplayPercentages(counts)[i];
      && p <= 100
      && (SumCounts(counts) == 0 ==> p == 0)
      && (0 < counts[i].count == SumCounts(counts) ==> p == 100)
  {
    assert DisplayPercentages(counts)[i] == Percent(counts[i].count, SumCounts(counts));
    CountWithinSum(counts, i);
    PercentRange(counts[i].count, SumCounts(counts));
  }

  /**
   * t tenths is sum / count rounded to the nearest tenth, halves away from
   * zero: the rounding error 10·sum/count − t lies in [−1/2, 1/2) for a
   * non-negative mean and in (−1/2, 1/2] for a negative one.
   */
  predicate RoundsToTenths(sum: int, count: nat, t: int)
    requires count > 0
  {
    if sum >= 0 then -(count as int) <= 2 * (10 * sum - t * count) < count
    else -(count as int) < 2 * (10 * sum - t * count) <= count
  }

  /** The percentage of each option over a fixed denominator, built option by option. */
  function PercentsOver(counts: seq<OptionCount>, total: nat): (ps: seq<nat>)
    ensures |ps| == |counts|
    ensures forall i :: 0 <= i < |counts| ==> ps[i] == Percent(counts[i].count, total)
  {
    if counts == [] then []
    else PercentsOver(counts[..|counts| - 1], total) + [Percent(counts[|counts| - 1].count, total)]
  }

  /**
   * Summed over the options, the half-open rounding bounds of each
   * percentage give bounds on the total of the percentages.
   */
  lemma {:induction false} PercentsOverSum(counts: seq<OptionCount>, total: nat)
    requires total > 0
    ensures 2 * Sum(PercentsOver(counts, total)) * total - |counts| * total <= 200 * SumCounts(counts)
    ensures 200 * SumCounts(counts) <= 2 * Sum(PercentsOver(counts, total)) * total + |counts| * total
    ensures counts != [] ==>
      200 * SumCounts(counts) < 2 * Sum(PercentsOver(counts, total)) * total + |counts| * total
  {
    if counts != [] {
      var init := counts[..|counts| - 1];
      var c := counts[|counts| - 1].count;
      var ps := PercentsOver(counts, total);
      var p := Percent(c, total);
      assert ps[..|ps| - 1] == PercentsOver(init, total);
      var before := Sum(PercentsOver(init, total));
      assert Sum(ps) == before + p;
      PercentsOverSum(init, total);
      DoubleSumTimes(before, p, total);
      SuccTimes(|init|, total);
    }
  }

  lemma DoubleSumTimes(x: int, y: int, t: int)
    ensures 2 * (x + y) * t == 2 * x * t + 2 * y * t
  {
  }

  lemma SuccTimes(n: int, t: int)
    ensures (n + 1) * t == n * t + t
  {
  }

  /**
   * Each option is rounded on its own, so the displayed percentages of a
   * question with tallies add up to 100 give or take half a point per
   * option: within ±(n − 1) of 100 for n options, and exactly 100 for one.
   */
  lemma DisplayPercentagesSum(counts: seq<OptionCount>)
    requires SumCounts(counts) > 0
    ensures var total := Sum(DisplayPercentages(counts));
      && 2 * (total - 100) <= |counts|
      && 2 * (100 - total) < |counts|
      && -(|counts| - 1) <= total - 100 <= |counts| - 1
  {
    var t := SumCounts(counts);
    DisplayIsPercentsOver(counts);
    PercentsOverSum(counts, t);
    UnscaleBounds(Sum(DisplayPercentages(counts)), |counts|, t);
  }

  lemma DisplayIsPercentsOver(counts: seq<OptionCount>)
    ensures DisplayPercentages(counts) == PercentsOver(counts, SumCounts(counts))
  {
  }

  /** Dividing the summed bounds by the positive total. */
  lemma UnscaleBounds(p: int, n: int, t: int)
    requires t > 0
    requires 2 * p * t - n * t <= 200 * t < 2 * p * t + n * t
    ensures 2 * (p - 100) <= n && 2 * (100 - p) < n
  {
    FactorTotal(p, n, t);
    MultipleOutside(2 * p - n - 200, t);
    MultipleOutside(200 - 2 * p - n, t);
  }

  lemma FactorTotal(p: int, n: int, t: int)
    ensures (2 * p - n - 200) * t == 2 * p * t - n * t - 200 * t
    ensures (200 - 2 * p - n) * t == 200 * t - 2 * p * t - n * t
  {
  }

  /** At most one number of tenths is the rounding of a given mean. */
  lemma RoundingUnique(sum: int, count: nat, t1: int, t2: int)
    requires count > 0
    requires RoundsToTenths(sum, count, t1) && RoundsToTenths(sum, count, t2)
    ensures t1 == t2
  {
    var c := count as int;
    assert (t2 - t1) * c == (10 * sum - t1 * c) - (10 * sum - t2 * c);
    MultipleWithinOne(t2 - t1, c);
  }

  /** A multiple of a positive number strictly inside (−c, c) is zero. */
  lemma MultipleWithinOne(k: int, c: int)
    requires c > 0 && -c < k * c < c
    ensures k == 0
  {
    MultipleOutside(k, c);
  }

  lemma MultipleOutside(k: int, c: int)
    requires c > 0
    ensures k >= 1 ==> k * c >= c
    ensures k <= -1 ==> k * c <= -c
  {
    assert k * c == c + (k - 1) * c;
    assert k * c == -c + (k + 1) * c;
  }

  /** `toFixed(1)` of sum / count, as tenths: rounded to the nearest tenth, halves away from zero. */
  function AverageTenths(sum: int, count: nat): (t: int)
    requires count > 0
    ensures RoundsToTenths(sum, count, t)
    ensures sum >= 0 ==> t >= 0
    ensures sum <= 0 ==> t <= 0
  {
    if sum >= 0 then HalfUpQuotient(10 * sum, count)
    else -(HalfUpQuotient(10 * -sum, count) as int)
  }

  /** n / c rounded half up: (2n + c) / 2c, within half of c of n once scaled back. */
  function HalfUpQuotient(n: nat, c: nat): (q: nat)
    requires c > 0
    ensures -(c as int) <= 2 * (n - q * c) < c
    ensures n == 0 ==> q == 0
  {
    var q := (2 * n + c) / (2 * c);
    EuclideanStep(2 * n + c, c, q);
    q
  }

  /** The quotient by 2c, named, with its remainder stated linearly. */
  lemma EuclideanStep(m: nat, c: nat, q: int)
    requires c > 0 && q == m / (2 * c)
    ensures q >= 0 && 2 * q * c <= m < 2 * q * c + 2 * c
  {
    var d := 2 * c;
    var r := m % d;
    assert m == q * d + r && 0 <= r < d;
    MultipleOutside(q, d);
    ScaleByTwo(q, c);
  }

  lemma ScaleByTwo(q: int, c: int)
    ensures q * (2 * c) == 2 * q * c
  {
  }

  /** The average the detail page shows: `toFixed(1)` of the mean, or 0 with no ratings. */
  function DisplayAverage(s: Stats): (tenths: int)
    requires s.RatingSummary?
    ensures s.count == 0 ==> tenths == 0
    ensures s.count > 0 ==> RoundsToTenths(s.sum, s.count, tenths)
  {
    if s.count > 0 then AverageTenths(s.sum, s.count) else 0
  }
}
