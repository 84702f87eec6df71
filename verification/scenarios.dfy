/** Worked examples of the statistics on small, concrete answer lists. */
module Scenarios {
  import opened Wrappers
  import opened QuestionStats
  import opened Export
  import Text

  /** Answers "Yes", "Yes", "No" tally to 2 and 1 and display as 67% and 33%. */
  lemma YesNoTally()
    ensures var counts := CountAnswers(["Yes", "No"], [Some("Yes"), Some("Yes"), Some("No")]);
      counts == [OptionCount("Yes", 2), OptionCount("No", 1)] && DisplayPercentages(counts) == [67, 33]
  {
    var a: seq<Option<string>> := [Some("Yes"), Some("Yes"), Some("No")];
    assert a[..2] == [Some("Yes"), Some("Yes")] && a[..2][..1] == [Some("Yes")] && a[..2][..1][..0] == [];
    assert Occurrences(a[..2][..1], "Yes") == 1 && Occurrences(a[..2][..1], "No") == 0;
    assert Occurrences(a[..2], "Yes") == 2 && Occurrences(a[..2], "No") == 0;
    assert Occurrences(a, "Yes") == 2 && Occurrences(a, "No") == 1;
    var counts := CountAnswers(["Yes", "No"], a);
    assert counts == [OptionCount("Yes", 2), OptionCount("No", 1)];
    assert counts[..1] == [OptionCount("Yes", 2)] && counts[..1][..0] == [];
    assert SumCounts(counts[..1]) == 2;
    assert SumCounts(counts) == 3;
    assert Percent(2, 3) == 67 && Percent(1, 3) == 33;
  }

  lemma LetterDoesNotParse()
    ensures Text.ParseInt("x") == None
  {
    var x := "x";
    assert x[0] == 'x';
    assert !Text.IsSpace(x[0]);
    assert Text.TrimStart(x) == x;
    assert x[0] != '-' && x[0] != '+';
    assert Text.UnsignedPart(x) == x;
    assert !Text.IsDigit(x[0]);
    assert Text.DigitRun(x) == 0;
  }

  lemma DigitsParse()
    ensures Text.ParseInt("3") == Some(3) && Text.ParseInt("5") == Some(5) && Text.ParseInt("4") == Some(4)
  {
    Text.ParseDecimal(3);
    Text.ParseDecimal(5);
    Text.ParseDecimal(4);
  }

  /** A malformed rating such as "x" is skipped: it adds nothing to the ratings that are counted. */
  lemma MalformedRatingIgnored(prefix: seq<Option<string>>)
    ensures Ratings(prefix + [Some("x")]) == Ratings(prefix)
  {
    LetterDoesNotParse();
    RatingSkipped(prefix, "x");
  }

  lemma RatingsOfThree()
    ensures Ratings([Some("3")]) == [3]
  {
    Text.ParseDecimal(3);
    RatingCounted([], "3", 3);
    assert [] + [Some("3")] == [Some("3")];
  }

  lemma RatingsOfThreeFive()
    ensures Ratings([Some("3"), Some("5")]) == [3, 5]
  {
    RatingsOfThree();
    Text.ParseDecimal(5);
    RatingCounted([Some("3")], "5", 5);
    assert [Some("3")] + [Some("5")] == [Some("3"), Some("5")];
  }

  lemma RatingsOfThreeFiveX()
    ensures Ratings([Some("3"), Some("5"), Some("x")]) == [3, 5]
  {
    RatingsOfThreeFive();
    MalformedRatingIgnored([Some("3"), Some("5")]);
    assert [Some("3"), Some("5")] + [Some("x")] == [Some("3"), Some("5"), Some("x")];
  }

  /** Ratings "3", "5", "x", "4": the "x" is left out, so 3, 5 and 4 are counted, in that order. */
  lemma RatingWithMalformedAnswer()
    ensures Ratings([Some("3"), Some("5"), Some("x"), Some("4")]) == [3, 5, 4]
  {
    RatingsOfThreeFiveX();
    Text.ParseDecimal(4);
    RatingCounted([Some("3"), Some("5"), Some("x")], "4", 4);
    assert [Some("3"), Some("5"), Some("x")] + [Some("4")] == [Some("3"), Some("5"), Some("x"), Some("4")];
  }

  /**
   * The whole rating scenario: of the answers "3", "5", "x", "4", three are
   * counted, and the report shows an average of 4.0.
   */
  lemma RatingScenario()
    ensures var answers := [Some("3"), Some("5"), Some("x"), Some("4")];
      && |Ratings(answers)| == 3
      && AverageTenths(Sum(Ratings(answers)), |Ratings(answers)|) == 40
      && RatingBody(answers) == AverageRating(Some(40))
  {
    RatingWithMalformedAnswer();
    RatingAverageExample();
  }

  /** An answer that parses adds its value at the end. */
  lemma RatingCounted(prefix: seq<Option<string>>, s: string, v: int)
    requires Text.ParseInt(s) == Some(v)
    ensures Ratings(prefix + [Some(s)]) == Ratings(prefix) + [v]
  {
    assert (prefix + [Some(s)])[..|prefix|] == prefix;
  }

  /** An answer that does not parse adds nothing. */
  lemma RatingSkipped(prefix: seq<Option<string>>, s: string)
    requires Text.ParseInt(s).None?
    ensures Ratings(prefix + [Some(s)]) == Ratings(prefix)
  {
    assert (prefix + [Some(s)])[..|prefix|] == prefix;
  }

  /** Exact halves round away from zero: 0.05 shows as 0.1 and −0.05 as −0.1. */
  lemma AverageTiesAwayFromZero()
    ensures AverageTenths(1, 20) == 1 && AverageTenths(-1, 20) == -1
  {
  }

  /** The three counted ratings average to 4.0. */
  lemma RatingAverageExample()
    ensures AverageTenths(Sum([3, 5, 4]), 3) == 40
  {
    var xs := [3, 5, 4];
    assert xs[..2] == [3, 5] && xs[..2][..1] == [3] && xs[..2][..1][..0] == [];
    assert Sum(xs[..2][..1]) == 3;
    assert Sum(xs[..2]) == 8;
    assert Sum(xs) == 12;
  }
}
