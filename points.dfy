/** `calculate_points` of csv_formatter.py: donor age, payment interval and
    yearly amount give a score. Every score is a multiple of 0.5, so the
    model counts half-points: 1 stands for 0.5 points, 6 for 3.0 points. */
module Points {
  import opened Wrappers
  import opened Text

  type HalfPoints = nat

  /** The score as written in the source: age cut-offs, then four amount
      brackets, each split three ways on the interval, then +1 point from 40. */
  function CalculatePoints(age: int, interval: string, amount: real): (p: HalfPoints)
    ensures 1 <= p <= 12
  {
    if age < 25 then 1
    else if age < 30 then
      if Lower(interval) == "monthly" then 1 else 2
    else
      var base: HalfPoints :=
        if amount >= 360.0 then
          if Lower(interval) == "yearly" then 10
          else if Contains(Lower(interval), "half") then 8
          else 6
        else if amount >= 240.0 then
          if Lower(interval) == "yearly" then 8
          else if Contains(Lower(interval), "half") then 6
          else 4
        else if amount >= 180.0 then
          if Lower(interval) == "yearly" then 6
          else if Contains(Lower(interval), "half") then 5
          else 3
        else if amount >= 120.0 then
          if Lower(interval) == "yearly" then 4
          else if Contains(Lower(interval), "half") then 3
          else 2
        else 2;
      if age >= 40 then base + 2 else base
  }

  // ---------------------------------------------------------------------
  // The rule table, stated independently of the if-chain

  /** The interval columns of the table. "yearly" is matched exactly after
      lower-casing, "half" anywhere in the lower-cased text, and every other
      interval falls into the monthly column. */
  function ColumnOf(interval: string): (c: nat)
    ensures c < 3
  {
    var l := Lower(interval);
    if l == "yearly" then 0 else if Contains(l, "half") then 1 else 2
  }

  /** The amount brackets, inclusive lower bounds 360, 240, 180 and 120;
      `None` below 120. */
  function BracketOf(amount: real): (b: Option<nat>)
    ensures b.Some? ==> b.value < 4
  {
    if amount >= 360.0 then Some(0)
    else if amount >= 240.0 then Some(1)
    else if amount >= 180.0 then Some(2)
    else if amount >= 120.0 then Some(3)
    else None
  }

  /** Base values in half-points: rows are the brackets, columns
      yearly / half-yearly / monthly (5/4/3, 4/3/2, 3/2.5/1.5, 2/1.5/1). */
  const Table: seq<seq<HalfPoints>> := [[10, 8, 6], [8, 6, 4], [6, 5, 3], [4, 3, 2]]

  /** The minimum base value (1 point) below the lowest bracket. */
  const Minimum: HalfPoints := 2

  function TableBase(interval: string, amount: real): HalfPoints {
    match BracketOf(amount)
    case Some(b) => Table[b][ColumnOf(interval)]
    case None => Minimum
  }

  /** From 30 on, the score is the table's base value, plus 1 point from 40. */
  lemma PointsFollowTable(age: int, interval: string, amount: real)
    requires age >= 30
    ensures CalculatePoints(age, interval, amount) ==
            TableBase(interval, amount) + (if age >= 40 then 2 else 0)
  {
  }

  /** Under 25 every donation scores 0.5 points. */
  lemma UnderTwentyFive(age: int, interval: string, amount: real)
    requires age < 25
    ensures CalculatePoints(age, interval, amount) == 1
  {
  }

  /** From 25 to 29: 0.5 points exactly for a monthly interval, else 1 point. */
  lemma UnderThirty(age: int, interval: string, amount: real)
    requires 25 <= age < 30
    ensures CalculatePoints(age, interval, amount) == 1 <==> Lower(interval) == "monthly"
    ensures CalculatePoints(age, interval, amount) == 1 || CalculatePoints(age, interval, amount) == 2
  {
  }

  /** The 40+ bonus is exactly one point on top of the 30+ score. */
  lemma FortyPlusAddsOnePoint(age: int, interval: string, amount: real)
    requires age >= 40
    ensures CalculatePoints(age, interval, amount) == CalculatePoints(30, interval, amount) + 2
  {
  }

  /** A larger yearly amount never scores less, all else equal. */
  lemma MonotoneInAmount(age: int, interval: string, a1: real, a2: real)
    requires a1 <= a2
    ensures CalculatePoints(age, interval, a1) <= CalculatePoints(age, interval, a2)
  {
  }

  /** An older donor never scores less, all else equal. */
  lemma MonotoneInAge(age1: int, age2: int, interval: string, amount: real)
    requires age1 <= age2
    ensures CalculatePoints(age1, interval, amount) <= CalculatePoints(age2, interval, amount)
  {
  }

  /** The three regression vectors of the build test. */
  lemma RegressionVectors()
    ensures CalculatePoints(25, "Monthly", 360.0) == 1
    ensures CalculatePoints(35, "Monthly", 360.0) == 6
    ensures CalculatePoints(45, "Monthly", 360.0) == 8
  {
    assert Lower("Monthly") == "monthly";
  }

  /** "Yearly" takes the yearly column once lower-cased. */
  lemma YearlyLabel()
    ensures ColumnOf("Yearly") == 0
  {
    assert Lower("Yearly") == "yearly";
  }

  /** Any label mentioning "Half" or "half" takes the half-yearly column,
      "Half-yearly" among them. */
  lemma HalfLabel(pre: string, c: char, post: string)
    requires c == 'H' || c == 'h'
    ensures ColumnOf(pre + [c] + "alf" + post) == 1
  {
    var interval := pre + [c] + "alf" + post;
    var i := |pre|;
    assert interval[i] == c && interval[i + 1] == 'a' && interval[i + 2] == 'l' && interval[i + 3] == 'f';
    var l := Lower(interval);
    assert l[i] == 'h' && l[i + 1] == 'a' && l[i + 2] == 'l' && l[i + 3] == 'f';
    assert l[i..i + 4] == "half";
    HalfColumn(interval, i);
  }

  /** "half" at any position of the lower-cased label selects the column:
      the label is then not "yearly", which has no 'h'. */
  lemma HalfColumn(interval: string, i: nat)
    requires i + 4 <= |Lower(interval)| && Lower(interval)[i..i + 4] == "half"
    ensures ColumnOf(interval) == 1
  {
    var l := Lower(interval);
    ContainsAt(l, "half", i);
    assert l[i] == l[i..i + 4][0] == 'h';
    assert 'h' !in "yearly";
  }

  /** "monthly" takes the monthly column. */
  lemma MonthlyLabel()
    ensures ColumnOf("monthly") == 2
  {
    LowerUnchanged("monthly");
    NoLetterF("monthly");
    NoHalf("monthly");
  }

  /** The German label "jährlich" (yearly) is not recognised and falls into
      the monthly column. */
  lemma GermanYearlyLabel()
    ensures ColumnOf("jährlich") == 2
  {
    LowerUnchanged("jährlich");
    NoLetterF("jährlich");
    NoHalf("jährlich");
  }

  /** A label that is not "yearly" and does not contain "half" once
      lower-cased takes the monthly column, "fortnightly" among them: the
      letter 'f' alone does not select the half-yearly column. */
  lemma NoHalf(interval: string)
    requires Lower(interval) != "yearly" && !Contains(Lower(interval), "half")
    ensures ColumnOf(interval) == 2
  {
  }

  /** A lower-cased label without the letter 'f' does not contain "half". */
  lemma NoLetterF(l: string)
    requires 'f' !in l
    ensures !Contains(l, "half")
  {
    if Contains(l, "half") {
      ContainedChars(l, "half", 'f');
    }
  }
}
