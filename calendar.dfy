/** The month of a fundraiser's report, shared by both renderers: the
    `month_mapping` table of calendar-week ranges, the week number read off a
    week label, and the lookup loop with its "Mai" default. */
module Calendar {
  import opened Wrappers
  import opened Text

  /** One entry of `month_mapping`: the weeks `range(lo, hi)` (so `lo`
      included, `hi` excluded) belong to month `name`. */
  datatype MonthRange = MonthRange(lo: int, hi: int, name: string)

  /** `month_mapping`, in the order the loop visits it. */
  const MonthMapping: seq<MonthRange> := [
    MonthRange(1, 5, "Januar"), MonthRange(5, 9, "Februar"), MonthRange(9, 14, "März"),
    MonthRange(14, 18, "April"), MonthRange(18, 23, "Mai"), MonthRange(23, 27, "Juni"),
    MonthRange(27, 31, "Juli"), MonthRange(31, 35, "August"), MonthRange(35, 40, "September"),
    MonthRange(40, 44, "Oktober"), MonthRange(44, 48, "November"), MonthRange(48, 53, "Dezember")]

  const DefaultMonth: string := "Mai"

  /** `week in range(lo, hi)` */
  predicate InRange(week: int, m: MonthRange) {
    m.lo <= week < m.hi
  }

  /** The month of a week, stated as inclusive week intervals; weeks outside
      1..52 have none. */
  function MonthOfWeek(week: int): Option<string> {
    if 1 <= week <= 4 then Some("Januar")
    else if 5 <= week <= 8 then Some("Februar")
    else if 9 <= week <= 13 then Some("März")
    else if 14 <= week <= 17 then Some("April")
    else if 18 <= week <= 22 then Some("Mai")
    else if 23 <= week <= 26 then Some("Juni")
    else if 27 <= week <= 30 then Some("Juli")
    else if 31 <= week <= 34 then Some("August")
    else if 35 <= week <= 39 then Some("September")
    else if 40 <= week <= 43 then Some("Oktober")
    else if 44 <= week <= 47 then Some("November")
    else if 48 <= week <= 52 then Some("Dezember")
    else None
  }

  /** The month written into the report for the first week found: "Mai"
      when there is none, when it is 0 (falsy) and when no range holds it. */
  function ReportMonth(firstWeek: Option<int>): string {
    match firstWeek
    case None => DefaultMonth
    case Some(w) => if w == 0 then DefaultMonth else MonthOfWeek(w).GetOr(DefaultMonth)
  }

  /** `if first_week:` and the loop over `month_mapping.items()` that stops
      at the first range holding the week. */
  method MonthLookup(firstWeek: Option<int>) returns (month: string)
    ensures month == ReportMonth(firstWeek)
  {
    month := DefaultMonth;
    if firstWeek.Some? && firstWeek.value != 0 {
      var week := firstWeek.value;
      var i := 0;
      while i < |MonthMapping|
        invariant 0 <= i <= |MonthMapping|
        invariant month == DefaultMonth
        invariant forall k :: 0 <= k < i ==> !InRange(week, MonthMapping[k])
      {
        if InRange(week, MonthMapping[i]) {
          month := MonthMapping[i].name;
          TableAgreesWithMonthOfWeek(week, i);
          return;
        }
        i := i + 1;
      }
      TableCovers(week);
    }
  }

  /** The range the loop stops at gives the month of the interval table. */
  lemma TableAgreesWithMonthOfWeek(week: int, i: nat)
    requires i < |MonthMapping| && InRange(week, MonthMapping[i])
    ensures MonthOfWeek(week) == Some(MonthMapping[i].name)
  {
  }

  /** Every week of 1..52 lies in some range of the table. */
  lemma TableCovers(week: int)
    ensures (exists k :: 0 <= k < |MonthMapping| && InRange(week, MonthMapping[k])) <==> MonthOfWeek(week).Some?
  {
    if MonthOfWeek(week).Some? {
      var k := if week < 5 then 0 else if week < 9 then 1 else if week < 14 then 2 else if week < 18 then 3
               else if week < 23 then 4 else if week < 27 then 5 else if week < 31 then 6 else if week < 35 then 7
               else if week < 40 then 8 else if week < 44 then 9 else if week < 48 then 10 else 11;
      assert InRange(week, MonthMapping[k]);
    }
  }

  /** The ranges are consecutive and disjoint: each starts where the one
      before ends, from week 1 to week 52, so every week of the year has
      exactly one month. */
  lemma TableIsPartition()
    ensures MonthMapping[0].lo == 1 && MonthMapping[|MonthMapping| - 1].hi == 53
    ensures forall k :: 0 <= k < |MonthMapping| - 1 ==> MonthMapping[k].hi == MonthMapping[k + 1].lo
    ensures forall k :: 0 <= k < |MonthMapping| ==> MonthMapping[k].lo < MonthMapping[k].hi
    ensures forall week, k, l :: 0 <= k < l < |MonthMapping| && InRange(week, MonthMapping[k]) ==>
              !InRange(week, MonthMapping[l])
  {
    forall week, k, l | 0 <= k < l < |MonthMapping| && InRange(week, MonthMapping[k])
      ensures !InRange(week, MonthMapping[l])
    {
      RangesAscend(k, l);
    }
  }

  lemma {:induction false} RangesAscend(k: nat, l: nat)
    requires k < l < |MonthMapping|
    ensures MonthMapping[k].hi <= MonthMapping[l].lo
    decreases l - k
  {
    if k + 1 < l {
      RangesAscend(k + 1, l);
    }
  }

  /** Weeks before 1 and after 52, and week 0, give "Mai" like a missing
      week: the month cannot tell them apart from week 18 to 22. */
  lemma DefaultMonthIsAmbiguous(week: int)
    requires week <= 0 || week >= 53
    ensures ReportMonth(Some(week)) == ReportMonth(None) == ReportMonth(Some(20)) == "Mai"
  {
  }

  // ---------------------------------------------------------------------
  // Week numbers of labels

  /** The error both renderers report where `LabelWeek` or `SlashWeek`
      gives no week: the `ValueError` or `IndexError` the source raises. */
  const BadLabel: string := "week label without a week number"

  /** `int(str(week).split('/')[0])`: the number before the first '/';
      `None` where `int()` raises. */
  function SlashWeek(text: string): Option<int> {
    ParseInt(Split(text, '/')[0])
  }

  /** The week number a label gives: the number before '/' when there is
      one, else the first run of digits (`re.findall(r'\d+', ...)[0]`);
      `None` where the source raises (no digits, or a prefix `int()`
      refuses). */
  function LabelWeek(text: string): Option<int> {
    if '/' in text then SlashWeek(text)
    else
      var run := FirstDigitRun(text);
      if run == [] then None else Some(DigitsValue(run) as int)
  }

  /** A label made of a digit-free prefix and digits is the week of its
      digits. */
  lemma {:induction false} DigitsAfterPrefix(prefix: string, ds: string)
    requires forall i :: 0 <= i < |prefix| ==> !IsDigit(prefix[i])
    requires ds != [] && AllDigits(ds)
    ensures FirstDigitRun(prefix + ds) == ds
  {
    if prefix == [] {
      assert prefix + ds == ds;
      TakeDigitsOf(ds, []);
      assert ds + [] == ds;
    } else {
      assert (prefix + ds)[1..] == prefix[1..] + ds;
      DigitsAfterPrefix(prefix[1..], ds);
    }
  }

  /** The text before the first '/'. */
  lemma BeforeSlash(pre: string, post: string)
    requires '/' !in pre
    ensures Split(pre + "/" + post, '/')[0] == pre
  {
    SplitAfterField(pre, '/', post);
    assert pre + "/" + post == pre + ['/'] + post;
  }

  /** A "KW<n>" label is week n, by its digit run. */
  lemma KwLabel(ds: string)
    requires ds != [] && AllDigits(ds)
    ensures LabelWeek("KW" + ds) == Some(DigitsValue(ds) as int)
  {
    DigitsAfterPrefix("KW", ds);
    assert '/' !in "KW" + ds by {
      assert forall i :: 0 <= i < |ds| ==> ("KW" + ds)[i + 2] == ds[i];
    }
  }

  /** An "<n>/<year>" label is week n, by the number before '/'. */
  lemma SlashLabel(ds: string, year: string)
    requires ds != [] && AllDigits(ds)
    ensures LabelWeek(ds + "/" + year) == Some(DigitsValue(ds) as int)
  {
    assert (ds + "/" + year)[|ds|] == '/';
    assert '/' !in ds;
    BeforeSlash(ds, year);
  }

  /** A "KW<n>/<year>" label raises: "KW<n>" before the '/' is not an
      integer. */
  lemma KwSlashLabel(ds: string, year: string)
    requires AllDigits(ds)
    ensures LabelWeek("KW" + ds + "/" + year) == None
  {
    var pre := "KW" + ds;
    assert "KW" + ds + "/" + year == pre + "/" + year;
    assert (pre + "/" + year)[|pre|] == '/';
    assert '/' !in pre by {
      assert forall i :: 0 <= i < |ds| ==> pre[i + 2] == ds[i];
    }
    BeforeSlash(pre, year);
    LetterFirstIsNotInt(pre);
  }

  lemma LetterFirstIsNotInt(t: string)
    requires |t| >= 2 && t[..2] == "KW"
    requires forall i :: 2 <= i < |t| ==> IsDigit(t[i])
    ensures ParseInt(t) == None
  {
    assert t[0] == 'K';
    if |t| > 2 {
      DigitIsNotSpace(t[|t| - 1]);
    } else {
      assert t[|t| - 1] == 'W';
    }
    StripUnpadded(t);
  }

  /** A label without digits raises too. */
  lemma NoDigitsLabel(text: string)
    requires '/' !in text
    requires forall i :: 0 <= i < |text| ==> !IsDigit(text[i])
    ensures LabelWeek(text) == None
  {
  }
}
