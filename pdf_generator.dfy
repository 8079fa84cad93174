/** The PDF report of one fundraiser (pdf_generator.py): the padded id, the
    month taken from the first "<week>/<year>" label, the week sections in
    sorted label order, each week's point total and bonus, and the file
    name. Points and reference ids are read through `pd.to_numeric`. */
module PdfGenerator {
  import opened Wrappers
  import opened Text
  import opened Ordering
  import opened FormattedCsv
  import Calendar
  import FormatterApp
  import Ledger
  import Report
  import Points
  import HtmlGenerator

  // ---------------------------------------------------------------------
  // Fundraiser id

  /** `id.replace('.', '').replace('0', '').isdigit()` */
  predicate PadGuard(id: string) {
    var stripped := RemoveChar(RemoveChar(id, '.'), '0');
    stripped != [] && forall i :: 0 <= i < |stripped| ==> IsStrDigit(stripped[i])
  }

  /** The id is stripped of ".0" and zero-filled to five characters only
      when it passes the guard; any other id is kept as read. */
  function PadIdGuarded(id: string): string {
    if PadGuard(id) then ZFill(ReplaceAll(id, ".0", ""), 5) else id
  }

  /** Where the guard holds, the id is padded as the formatter pads it. */
  lemma GuardedPadAgrees(id: string)
    requires PadGuard(id)
    ensures PadIdGuarded(id) == Ledger.PadId(Some(id)) && |PadIdGuarded(id)| >= 5
  {
  }

  /** An id of digits and '.' with a digit other than '0' passes the guard. */
  lemma DigitIdsPassGuard(id: string)
    requires forall i :: 0 <= i < |id| ==> IsDigit(id[i]) || id[i] == '.'
    requires exists i :: 0 <= i < |id| && IsDigit(id[i]) && id[i] != '0'
    ensures PadGuard(id)
  {
    var stripped := RemoveChar(RemoveChar(id, '.'), '0');
    var i :| 0 <= i < |id| && IsDigit(id[i]) && id[i] != '0';
    assert id[i] in stripped;
    forall k | 0 <= k < |stripped| ensures IsStrDigit(stripped[k]) {
      assert stripped[k] in RemoveChar(id, '.');
      assert stripped[k] in id;
    }
  }

  /** The id read as a float ("4.0") and the id read as an integer ("4")
      both give "00004"-style ids. */
  lemma FloatIdIsPadded(ds: string)
    requires ds != [] && AllDigits(ds) && exists i :: 0 <= i < |ds| && ds[i] != '0'
    ensures PadIdGuarded(ds) == ZFill(ds, 5)
    ensures PadIdGuarded(ds + ".0") == ZFill(ds, 5)
  {
    DigitIdsPassGuard(ds);
    var f := ds + ".0";
    var i :| 0 <= i < |ds| && ds[i] != '0';
    assert f[i] == ds[i];
    DigitIdsPassGuard(f);
    NoDotInDigits(ds);
    ReplaceAllAbsent(ds, ".0", "");
    DropFloatSuffix(ds);
  }

  lemma NoDotInDigits(ds: string)
    requires AllDigits(ds)
    ensures !Contains(ds, ".0")
  {
    if Contains(ds, ".0") {
      ContainedChars(ds, ".0", '.');
    }
  }

  lemma DropFloatSuffix(ds: string)
    requires AllDigits(ds)
    ensures ReplaceAll(ds + ".0", ".0", "") == ds
    decreases |ds|
  {
    var s := ds + ".0";
    if ds == [] {
      assert s[..2] == ".0";
      assert s[2..] == [];
    } else {
      assert s[..2] != ".0" by {
        assert s[0] == ds[0];
      }
      assert s[1..] == ds[1..] + ".0";
      DropFloatSuffix(ds[1..]);
    }
  }

  /** Ids made only of '0' and '.', and ids with any other character (a
      missing id prints as "nan"), are kept as they are. */
  lemma UnguardedIdsKept(id: string)
    requires (forall i :: 0 <= i < |id| ==> id[i] == '0' || id[i] == '.') ||
             (exists i :: 0 <= i < |id| && !IsStrDigit(id[i]) && id[i] != '.')
    ensures PadIdGuarded(id) == id
  {
    var stripped := RemoveChar(RemoveChar(id, '.'), '0');
    if forall i :: 0 <= i < |id| ==> id[i] == '0' || id[i] == '.' {
      var noDots := RemoveChar(id, '.');
      assert forall k :: 0 <= k < |noDots| ==> noDots[k] in id && noDots[k] != '.';
      RemoveOnly(noDots, '0');
    } else {
      var i :| 0 <= i < |id| && !IsStrDigit(id[i]) && id[i] != '.';
      assert id[i] != '0';
      assert id[i] in stripped;
      var k :| 0 <= k < |stripped| && stripped[k] == id[i];
    }
  }

  // ---------------------------------------------------------------------
  // Month

  /** The week of a label with '/', or the error `int()` raises. */
  function SlashResult(text: string): Result<Option<int>, string> {
    match Calendar.SlashWeek(text)
    case None => Err(Calendar.BadLabel)
    case Some(w) => Ok(Some(w))
  }

  /** The search for the first label holding '/'. */
  function FirstSlash(labels: seq<string>): Result<Option<int>, string> {
    if labels == [] then Ok(None)
    else if '/' in labels[0] then SlashResult(labels[0])
    else FirstSlash(labels[1..])
  }

  /** No week is found exactly when no label holds '/'; otherwise the
      result is that of the first label that does, whatever follows it. */
  lemma FirstSlashSpec(labels: seq<string>)
    ensures FirstSlash(labels) == Ok(None) <==> forall k :: 0 <= k < |labels| ==> '/' !in labels[k]
    ensures forall k :: 0 <= k < |labels| && '/' in labels[k] && (forall j :: 0 <= j < k ==> '/' !in labels[j]) ==>
              FirstSlash(labels) == SlashResult(labels[k])
  {
    FirstSlashNone(labels);
    forall k | 0 <= k < |labels| && '/' in labels[k] && (forall j :: 0 <= j < k ==> '/' !in labels[j])
      ensures FirstSlash(labels) == SlashResult(labels[k])
    {
      FirstSlashAt(labels, k);
    }
  }

  lemma {:induction false} FirstSlashNone(labels: seq<string>)
    ensures FirstSlash(labels) == Ok(None) <==> forall k :: 0 <= k < |labels| ==> '/' !in labels[k]
  {
    if labels != [] {
      FirstSlashNone(labels[1..]);
      assert forall k :: 0 < k < |labels| ==> labels[k] == labels[1..][k - 1];
    }
  }

  lemma {:induction false} FirstSlashAt(labels: seq<string>, k: nat)
    requires k < |labels| && '/' in labels[k] && forall j :: 0 <= j < k ==> '/' !in labels[j]
    ensures FirstSlash(labels) == SlashResult(labels[k])
  {
    if k > 0 {
      assert labels[k] == labels[1..][k - 1];
      assert forall j :: 0 <= j < k - 1 ==> labels[1..][j] == labels[j + 1];
      FirstSlashAt(labels[1..], k - 1);
    }
  }

  /** The `first_week` loop: it stops at the first label holding '/', and
      raises when the text before its '/' is not an integer. */
  method FirstSlashWeek(labels: seq<string>) returns (r: Result<Option<int>, string>)
    ensures r == FirstSlash(labels)
  {
    var first: Option<int> := None;
    var i := 0;
    while i < |labels|
      invariant 0 <= i <= |labels|
      invariant first == None
      invariant FirstSlash(labels[i..]) == FirstSlash(labels)
    {
      if '/' in labels[i] {
        var week := Calendar.SlashWeek(labels[i]);
        if week.None? {
          return Err(Calendar.BadLabel);
        }
        first := week;
        break;
      }
      assert labels[i..][1..] == labels[i + 1..];
      i := i + 1;
    }
    return Ok(first);
  }

  /** The month of the report: the week of the first label with '/'
      through the month table, "Mai" by default. */
  method Month(rows: seq<Row>) returns (month: Result<string, string>)
    ensures month.Err? <==> FirstSlash(CalendarWeeks(rows)).Err?
    ensures month.Ok? ==> month.value == Calendar.ReportMonth(FirstSlash(CalendarWeeks(rows)).value)
  {
    var first := FirstSlashWeek(CalendarWeeks(rows));
    if first.Err? {
      return Err(first.error);
    }
    var name := Calendar.MonthLookup(first.value);
    return Ok(name);
  }

  /** The two renderers can disagree on the month: for labels "<a>/<y>"
      then "<b>/<y'>" with a > b, the PDF report takes week a and the HTML
      report the smaller week b. */
  lemma MonthsDisagree(da: string, ya: string, db: string, yb: string)
    requires da != [] && AllDigits(da) && db != [] && AllDigits(db) && DigitsValue(da) > DigitsValue(db)
    ensures FirstSlash([da + "/" + ya, db + "/" + yb]) == Ok(Some(DigitsValue(da) as int))
    ensures HtmlGenerator.MinLabelWeek([da + "/" + ya, db + "/" + yb]) == Ok(Some(DigitsValue(db) as int))
  {
    FirstSlashOfTwo(da, ya, db + "/" + yb);
    MinOfTwoLabels(da, ya, db, yb);
  }

  lemma FirstSlashOfTwo(da: string, ya: string, b: string)
    requires da != [] && AllDigits(da)
    ensures FirstSlash([da + "/" + ya, b]) == Ok(Some(DigitsValue(da) as int))
  {
    var a := da + "/" + ya;
    Calendar.SlashLabel(da, ya);
    assert a[|da|] == '/';
  }

  lemma MinOfTwoLabels(da: string, ya: string, db: string, yb: string)
    requires da != [] && AllDigits(da) && db != [] && AllDigits(db)
    ensures HtmlGenerator.MinLabelWeek([da + "/" + ya, db + "/" + yb]) ==
            Ok(Some(if DigitsValue(db) < DigitsValue(da) then DigitsValue(db) as int else DigitsValue(da) as int))
  {
    Calendar.SlashLabel(da, ya);
    Calendar.SlashLabel(db, yb);
    HtmlGenerator.LabelWeeksOfTwo(da + "/" + ya, db + "/" + yb);
    HtmlGenerator.MinWeekOfTwo(DigitsValue(da) as int, DigitsValue(db) as int);
  }

  /** So labels "20/2025" then "5/2025" give Mai in the PDF report and
      Februar in the HTML report; in general a first week of 18 to 22 before
      a smaller week of 5 to 8. */
  lemma MayAgainstFebruary(da: string, ya: string, db: string, yb: string)
    requires da != [] && AllDigits(da) && db != [] && AllDigits(db)
    requires 18 <= DigitsValue(da) <= 22 && 5 <= DigitsValue(db) <= 8
    ensures var first := FirstSlash([da + "/" + ya, db + "/" + yb]);
      first.Ok? && Calendar.ReportMonth(first.value) == "Mai"
    ensures var least := HtmlGenerator.MinLabelWeek([da + "/" + ya, db + "/" + yb]);
      least.Ok? && Calendar.ReportMonth(least.value) == "Februar"
  {
    MonthsDisagree(da, ya, db, yb);
    MayAndFebruary(DigitsValue(da) as int, DigitsValue(db) as int);
  }

  lemma MayAndFebruary(a: int, b: int)
    requires 18 <= a <= 22 && 5 <= b <= 8
    ensures Calendar.ReportMonth(Some(a)) == "Mai" && Calendar.ReportMonth(Some(b)) == "Februar"
  {
  }

  // ---------------------------------------------------------------------
  // Rows after `pd.to_numeric`

  /** A row once 'Public RefID' and 'points' went through `pd.to_numeric`
      (the age and amount columns only feed the table cells). */
  datatype PdfRow = PdfRow(week: Option<string>, refId: Option<real>, status: Option<string>,
                           points: Option<real>)

  /** `pd.to_numeric(errors='coerce')` on a cell: `None` for NaN. */
  function ToNumeric(cell: Option<string>): Option<real> {
    if cell.None? then None else ParseDecimal(cell.value)
  }

  /** The conversion as written: the points too are read as plain numbers,
      so a decimal comma makes them NaN. */
  function PreprocessAsWritten(r: Row): PdfRow {
    PdfRow(r.week, ToNumeric(r.refId), r.status, ToNumeric(r.points))
  }

  /** The conversion evidently intended: the points read with ',' as the
      decimal mark, as the HTML report reads them. The rest of the model
      uses this one. */
  function Preprocess(r: Row): PdfRow {
    PdfRow(r.week, ToNumeric(r.refId), r.status, ParsePoints(r.points))
  }

  function PreprocessAll(rows: seq<Row>): (prs: seq<PdfRow>)
    ensures |prs| == |rows| && forall i :: 0 <= i < |rows| ==> prs[i] == Preprocess(rows[i])
  {
    seq(|rows|, i requires 0 <= i < |rows| => Preprocess(rows[i]))
  }

  function PreprocessAllAsWritten(rows: seq<Row>): (prs: seq<PdfRow>)
    ensures |prs| == |rows| && forall i :: 0 <= i < |rows| ==> prs[i] == PreprocessAsWritten(rows[i])
  {
    seq(|rows|, i requires 0 <= i < |rows| => PreprocessAsWritten(rows[i]))
  }

  /** As written, every score the formatter writes ("3,0", "2,5") is lost:
      it holds a comma and reads as NaN. */
  lemma CommaScoreIsLost(r: Row, h: Points.HalfPoints)
    requires r.points == Some(FormatterApp.CommaScore(h))
    ensures PreprocessAsWritten(r).points == None
    ensures Preprocess(r).points == Some(h as real / 2.0)
  {
    FormatterApp.CommaScoreShape(h);
    var n := NatToString(h / 2);
    assert FormatterApp.CommaScore(h)[|n|] == ',';
    ParseDecimalRejects(FormatterApp.CommaScore(h), ',');
    CommaScoreParses(h);
  }

  // ---------------------------------------------------------------------
  // Week sections

  /** The week labels that are present, in row order. */
  function PdfPresentWeeks(rows: seq<PdfRow>): seq<string> {
    if rows == [] then []
    else
      var last := rows[|rows| - 1];
      PdfPresentWeeks(rows[..|rows| - 1]) + (if last.week.Some? then [last.week.value] else [])
  }

  /** `calendar_weeks`, the converted rows keeping their labels. */
  function PdfCalendarWeeks(rows: seq<PdfRow>): seq<string> {
    Unique(PdfPresentWeeks(rows))
  }

  /** The conversion leaves the week labels as they are. */
  lemma {:induction false} PreprocessKeepsWeeks(rows: seq<Row>)
    ensures PdfPresentWeeks(PreprocessAll(rows)) == PresentWeeks(rows)
    ensures PdfCalendarWeeks(PreprocessAll(rows)) == CalendarWeeks(rows)
  {
    if rows != [] {
      var n := |rows| - 1;
      PreprocessKeepsWeeks(rows[..n]);
      assert PreprocessAll(rows)[..n] == PreprocessAll(rows[..n]);
    }
  }

  /** `fundraiser_data[fundraiser_data['Calendar week'] == week]` */
  function WeekRowsOf(rows: seq<PdfRow>, w: string): seq<PdfRow> {
    if rows == [] then []
    else
      var last := rows[|rows| - 1];
      WeekRowsOf(rows[..|rows| - 1], w) + (if last.week == Some(w) then [last] else [])
  }

  /** The rows of a week are exactly the rows with that label. */
  lemma {:induction false} WeekRowsOfMember(rows: seq<PdfRow>, w: string, r: PdfRow)
    ensures r in WeekRowsOf(rows, w) <==> r in rows && r.week == Some(w)
  {
    if rows != [] {
      var init := rows[..|rows| - 1];
      WeekRowsOfMember(init, w, r);
      assert rows == init + [rows[|rows| - 1]];
    }
  }

  /** A label that occurs has rows. */
  lemma {:induction false} PresentWeekHasRows(rows: seq<PdfRow>, w: string)
    requires w in PdfPresentWeeks(rows)
    ensures WeekRowsOf(rows, w) != []
  {
    var init := rows[..|rows| - 1];
    if w in PdfPresentWeeks(init) {
      PresentWeekHasRows(init, w);
    }
  }

  /** The sorted labels, each with its rows, in ascending string order. */
  lemma SortedWeeksFacts(rows: seq<PdfRow>)
    ensures Increasing(Less, SortedUnique(Less, PdfCalendarWeeks(rows)))
    ensures forall w :: w in SortedUnique(Less, PdfCalendarWeeks(rows)) <==> w in PdfPresentWeeks(rows)
    ensures forall w :: w in SortedUnique(Less, PdfCalendarWeeks(rows)) ==> WeekRowsOf(rows, w) != []
  {
    Report.StringLessIsStrictTotalOrder();
    SortedUniqueSpec(Less, PdfCalendarWeeks(rows));
    UniqueSpec(PdfPresentWeeks(rows));
    forall w | w in PdfPresentWeeks(rows) ensures WeekRowsOf(rows, w) != [] {
      PresentWeekHasRows(rows, w);
    }
  }

  /** The `weeks_data` loop over `sorted(calendar_weeks)`; `order` is the
      order of the dict's keys. */
  method GroupWeeks(rows: seq<PdfRow>) returns (order: seq<string>, groups: map<string, seq<PdfRow>>)
    ensures order == SortedUnique(Less, PdfCalendarWeeks(rows))
    ensures forall w :: w in groups <==> w in order
    ensures forall w :: w in groups ==> groups[w] == WeekRowsOf(rows, w)
  {
    var weeks := SortedUnique(Less, PdfCalendarWeeks(rows));
    SortedWeeksFacts(rows);
    order := [];
    groups := map[];
    for k := 0 to |weeks|
      invariant order == weeks[..k]
      invariant forall w :: w in groups <==> w in order
      invariant forall w :: w in groups ==> groups[w] == WeekRowsOf(rows, w)
    {
      var w := weeks[k];
      var weekRows := WeekRowsOf(rows, w);
      if weekRows != [] {
        groups := groups[w := weekRows];
        order := order + [w];
      }
      assert weeks[..k + 1] == weeks[..k] + [w];
    }
    assert weeks[..|weeks|] == weeks;
  }

  /** The sections are in ascending string order of their labels, so
      "10/2025" comes before "9/2025". */
  lemma SectionsInStringOrder(rows: seq<PdfRow>, i: nat, j: nat)
    requires var order := SortedUnique(Less, PdfCalendarWeeks(rows));
      i < |order| && j < |order| && order[i] == "10/2025" && order[j] == "9/2025"
    ensures i < j
  {
    var order := SortedUnique(Less, PdfCalendarWeeks(rows));
    SortedWeeksFacts(rows);
    assert "10/2025"[0] != "9/2025"[0];
    assert !Less("9/2025", "10/2025");
    assert forall a, b :: 0 <= a < b < |order| ==> Less(order[a], order[b]);
  }

  // ---------------------------------------------------------------------
  // Week totals

  /** `valid_rows`: the reference id is still present once read as a number. */
  predicate Valid(r: PdfRow) {
    r.refId.Some?
  }

  function ValidRows(rows: seq<PdfRow>): seq<PdfRow> {
    if rows == [] then []
    else ValidRows(rows[..|rows| - 1]) + (if Valid(rows[|rows| - 1]) then [rows[|rows| - 1]] else [])
  }

  lemma {:induction false} ValidRowsMember(rows: seq<PdfRow>, r: PdfRow)
    ensures r in ValidRows(rows) <==> r in rows && Valid(r)
  {
    if rows != [] {
      var init := rows[..|rows| - 1];
      ValidRowsMember(init, r);
      assert rows == init + [rows[|rows| - 1]];
    }
  }

  /** `valid_rows['points'].fillna(0).sum()` */
  function PointsSum(valid: seq<PdfRow>): real {
    if valid == [] then 0.0
    else PointsSum(valid[..|valid| - 1]) + valid[|valid| - 1].points.GetOr(0.0)
  }

  /** The week total: the points of the valid rows, cancellations
      included, a missing value counting 0. */
  function PdfTotal(rows: seq<PdfRow>): real {
    PointsSum(ValidRows(rows))
  }

  /** The week total of rows converted as written. */
  function PdfTotalAsWritten(rows: seq<Row>): real {
    PdfTotal(PreprocessAllAsWritten(rows))
  }

  /** Rows without points add nothing. */
  lemma {:induction false} NoPointsSumToZero(valid: seq<PdfRow>)
    requires forall i :: 0 <= i < |valid| ==> valid[i].points == None
    ensures PointsSum(valid) == 0.0
  {
    if valid != [] {
      NoPointsSumToZero(valid[..|valid| - 1]);
    }
  }

  /** As written, the total of a week of formatter scores is 0 whatever
      the scores: a single valid row scoring 3.0 totals 0, where the
      intended reading gives 3.0. */
  lemma AsWrittenTotalIsZero(x: Row, h: Points.HalfPoints)
    requires ToNumeric(x.refId).Some? && x.points == Some(FormatterApp.CommaScore(h)) && h > 0
    ensures PdfTotalAsWritten([x]) == 0.0
    ensures PdfTotal(PreprocessAll([x])) == h as real / 2.0 > 0.0
  {
    CommaScoreIsLost(x, h);
    SingleAsWrittenRow(x);
    SingleConvertedRow(x);
  }

  /** A week of one valid row: its points are the total, its status
      decides the bonus. */
  lemma SingleRow(q: PdfRow)
    requires Valid(q)
    ensures PdfTotal([q]) == q.points.GetOr(0.0)
    ensures PdfBonus([q]) == Ok(PdfApproved(q))
  {
    assert [q][..0] == [];
    assert ValidRows([q]) == [q];
    assert PointsSum([q]) == PointsSum([]) + q.points.GetOr(0.0);
    assert PdfApprovedCount([q]) == PdfApprovedCount([]) + (if PdfApproved(q) then 1 else 0);
  }

  /** A status of any other length than "approved" never matches. */
  lemma NotApprovedByLength(s: string)
    requires |s| != |"approved"|
    ensures Lower(s) != "approved"
  {
  }

  /** A week of one row with a numeric id: its converted points are the total, its status decides the bonus. */
  lemma SingleConvertedRow(x: Row)
    requires ToNumeric(x.refId).Some?
    ensures PdfTotal(PreprocessAll([x])) == Preprocess(x).points.GetOr(0.0)
    ensures PdfBonus(PreprocessAll([x])) == Ok(PdfApproved(Preprocess(x)))
  {
    assert PreprocessAll([x]) == [Preprocess(x)];
    SingleRow(Preprocess(x));
  }

  lemma SingleAsWrittenRow(x: Row)
    requires ToNumeric(x.refId).Some?
    ensures PdfTotalAsWritten([x]) == PreprocessAsWritten(x).points.GetOr(0.0)
  {
    assert PreprocessAllAsWritten([x]) == [PreprocessAsWritten(x)];
    SingleRow(PreprocessAsWritten(x));
  }

  /** Half-points of the valid rows, cancelled or not. */
  function ValidHalves(rows: seq<PdfRow>, hs: seq<Points.HalfPoints>): nat
    requires |hs| == |rows|
  {
    if rows == [] then 0
    else
      var n := |rows| - 1;
      ValidHalves(rows[..n], hs[..n]) + (if Valid(rows[n]) then hs[n] else 0)
  }

  /** With the intended conversion of formatter scores, the total is the
      half-point sum of every valid row, cancelled rows included, halved. */
  lemma {:induction false} FormatterScoresTotal(rows: seq<PdfRow>, hs: seq<Points.HalfPoints>)
    requires |hs| == |rows|
    requires forall i :: 0 <= i < |rows| ==> rows[i].points == Some(hs[i] as real / 2.0)
    ensures PdfTotal(rows) == ValidHalves(rows, hs) as real / 2.0
  {
    if rows != [] {
      var n := |rows| - 1;
      var init := rows[..n];
      assert forall i :: 0 <= i < n ==> init[i] == rows[i];
      FormatterScoresTotal(init, hs[..n]);
      var v := ValidRows(rows);
      if Valid(rows[n]) {
        assert v == ValidRows(init) + [rows[n]];
        assert v[..|v| - 1] == ValidRows(init);
        assert PointsSum(v) == PointsSum(ValidRows(init)) + hs[n] as real / 2.0;
      } else {
        assert v == ValidRows(init);
      }
    }
  }

  /** Unlike the HTML report, a cancelled row counts toward the total. */
  lemma CancelledRowCounts(x: Row, h: Points.HalfPoints)
    requires ToNumeric(x.refId).Some? && x.status == Some("cancelled")
    requires x.points == Some(FormatterApp.CommaScore(h))
    ensures PdfTotal(PreprocessAll([x])) == h as real / 2.0
    ensures HtmlGenerator.WeekTotalOf([x]) == 0.0
  {
    CommaScoreParses(h);
    SingleConvertedRow(x);
    assert [x][..0] == [];
  }

  // ---------------------------------------------------------------------
  // Week bonus

  /** What `approved_count / total_count` raises for a week without valid
      rows. */
  const DivisionByZero: string := "division by zero"

  /** `status.str.lower() == 'approved'`; a missing status never matches. */
  predicate PdfApproved(r: PdfRow) {
    r.status.Some? && Lower(r.status.value) == "approved"
  }

  function PdfApprovedCount(rows: seq<PdfRow>): nat {
    if rows == [] then 0
    else PdfApprovedCount(rows[..|rows| - 1]) + (if PdfApproved(rows[|rows| - 1]) then 1 else 0)
  }

  /** `bonus_granted`: at least 70% of the valid rows approved; an error when
      there are none. */
  function PdfBonus(rows: seq<PdfRow>): Result<bool, string> {
    var valid := ValidRows(rows);
    if |valid| == 0 then Err(DivisionByZero)
    else Ok(10 * PdfApprovedCount(valid) >= 7 * |valid|)
  }

  /** The bonus fails exactly when no row of the week is valid. */
  lemma PdfBonusFails(rows: seq<PdfRow>)
    ensures PdfBonus(rows).Err? <==> forall i :: 0 <= i < |rows| ==> !Valid(rows[i])
  {
    if ValidRows(rows) != [] {
      var r := ValidRows(rows)[0];
      ValidRowsMember(rows, r);
    } else {
      forall i | 0 <= i < |rows| ensures !Valid(rows[i]) {
        ValidRowsMember(rows, rows[i]);
      }
    }
  }

  /** Reference ids with a letter are not numbers: a week whose ids all
      hold one makes the report fail. */
  lemma LetterIdsFail(rows: seq<Row>)
    requires forall i :: 0 <= i < |rows| ==>
               rows[i].refId.Some? && exists k :: 0 <= k < |rows[i].refId.value| && 'A' <= rows[i].refId.value[k] <= 'Z'
    ensures PdfBonus(PreprocessAll(rows)).Err?
  {
    var prs := PreprocessAll(rows);
    forall i | 0 <= i < |prs| ensures !Valid(prs[i]) {
      var id := rows[i].refId.value;
      var k :| 0 <= k < |id| && 'A' <= id[k] <= 'Z';
      ParseDecimalRejects(id, id[k]);
    }
    PdfBonusFails(prs);
  }

  lemma LowerApproved()
    ensures Lower("Approved") == "approved"
  {
    assert "Approved" == ['A'] + "pproved";
    LowerCapitalised('A', "pproved");
  }

  /** The PDF bonus differs from the HTML one: it lower-cases the status, so
      "Approved" counts here and not there ... */
  lemma CapitalisedApprovalCounts(x: Row)
    requires ToNumeric(x.refId).Some? && x.status == Some("Approved")
    ensures PdfBonus(PreprocessAll([x])) == Ok(true)
    ensures HtmlGenerator.WeekBonus([x]) == "nein"
  {
    LowerApproved();
    SingleConvertedRow(x);
    HtmlGenerator.SingleRowBonus(x);
  }

  /** ... and it takes only 'approved', over every valid row: a
      'conditionally-approved' week gets the HTML bonus and not this one. */
  lemma ConditionalApprovalIgnored(x: Row)
    requires ToNumeric(x.refId).Some? && x.status == Some("conditionally-approved")
    ensures PdfBonus(PreprocessAll([x])) == Ok(false)
    ensures HtmlGenerator.WeekBonus([x]) == "ja"
  {
    NotApprovedByLength("conditionally-approved");
    SingleConvertedRow(x);
    HtmlGenerator.SingleRowBonus(x);
  }

  // ---------------------------------------------------------------------
  // Week footers

  /** The two footer values of one week section. */
  datatype Footer = Footer(week: string, total: real, bonus: bool)

  /** The loop over the week sections, as far as totals and bonus go: it
      stops with the division error at the first week without valid rows. */
  method WeekFooters(order: seq<string>, groups: map<string, seq<PdfRow>>)
    returns (footers: Result<seq<Footer>, string>)
    requires forall w :: w in order ==> w in groups
    ensures footers.Err? <==> exists k :: 0 <= k < |order| && PdfBonus(groups[order[k]]).Err?
    ensures footers.Ok? ==>
              (|footers.value| == |order| &&
               forall k :: 0 <= k < |order| ==>
                 footers.value[k] == Footer(order[k], PdfTotal(groups[order[k]]), PdfBonus(groups[order[k]]).value))
  {
    var done: seq<Footer> := [];
    for k := 0 to |order|
      invariant |done| == k
      invariant forall j :: 0 <= j < k ==> PdfBonus(groups[order[j]]).Ok?
      invariant forall j :: 0 <= j < k ==>
                  done[j] == Footer(order[j], PdfTotal(groups[order[j]]), PdfBonus(groups[order[j]]).value)
    {
      var rows := groups[order[k]];
      var bonus := PdfBonus(rows);
      if bonus.Err? {
        return Err(bonus.error);
      }
      done := done + [Footer(order[k], PdfTotal(rows), bonus.value)];
    }
    return Ok(done);
  }

  // ---------------------------------------------------------------------
  // File name

  /** `re.sub(r'[^\w\s-]', '', name.replace(' ', '_'))` */
  function PdfSafeName(name: string): string {
    HtmlGenerator.KeepNameChars(ReplaceChar(name, ' ', '_'))
  }

  /** `{id}_{safe_name}_Realisierungsdaten.pdf` */
  function PdfFilename(id: string, name: string): string {
    id + "_" + PdfSafeName(name) + "_Realisierungsdaten.pdf"
  }

  lemma {:induction false} KeepAddsNothing(s: string, c: char)
    requires c !in s
    ensures c !in HtmlGenerator.KeepNameChars(s)
  {
    if s != [] {
      KeepAddsNothing(s[1..], c);
    }
  }

  /** The safe name has no space and none of the characters Windows
      refuses; every character is a word character, whitespace or '-'. */
  lemma PdfSafeNameChars(name: string)
    ensures ' ' !in PdfSafeName(name)
    ensures forall i :: 0 <= i < |PdfSafeName(name)| ==>
              HtmlGenerator.KeptNameChar(PdfSafeName(name)[i]) && !HtmlGenerator.IsReserved(PdfSafeName(name)[i])
  {
    ReplaceCharRemoves(name, ' ', '_');
    KeepAddsNothing(ReplaceChar(name, ' ', '_'), ' ');
  }

  /** Unlike the HTML name, a hyphen survives: "Anna-Lena" stays as it is
      here and becomes "Anna_Lena" there. */
  lemma HyphenSurvives(a: string, b: string)
    requires a != [] && b != [] && HtmlGenerator.AllWordChars(a) && HtmlGenerator.AllWordChars(b)
    ensures PdfSafeName(a + "-" + b) == a + "-" + b
    ensures HtmlGenerator.SafeName(a + "-" + b) == a + "_" + b
  {
    var s := a + "-" + b;
    assert ' ' !in s by {
      forall i | 0 <= i < |s| ensures s[i] != ' ' {
        if i < |a| {
          assert s[i] == a[i];
        } else if i > |a| {
          assert s[i] == b[i - |a| - 1];
        }
      }
    }
    ReplaceCharAbsent(s, ' ', '_');
    HtmlGenerator.KeepJoined(a, "-", b);
    HtmlGenerator.SafeNameJoins(a, "-", b);
  }

  /** With an id free of path separators, the file name holds neither '/'
      nor '\\'. */
  lemma PdfFilenameIsPlain(id: string, name: string)
    requires '/' !in id && '\\' !in id
    ensures '/' !in PdfFilename(id, name) && '\\' !in PdfFilename(id, name)
  {
    PdfSafeNameChars(name);
    var safe := PdfSafeName(name);
    assert '/' !in safe && '\\' !in safe by {
      assert forall i :: 0 <= i < |safe| ==> safe[i] != '/' && safe[i] != '\\';
    }
    SuffixIsPlain();
  }

  lemma SuffixIsPlain()
    ensures '/' !in "_Realisierungsdaten.pdf" && '\\' !in "_Realisierungsdaten.pdf"
  {
    var suffix := "_Realisierungsdaten.pdf";
    assert forall k :: 0 <= k < |suffix| ==> suffix[k] != '/' && suffix[k] != '\\';
  }
}
