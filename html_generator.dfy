/** The HTML report of one fundraiser (html_generator.py): the month taken
    from its week labels, the week sections in first-occurrence order, each
    week's point total and bonus, the points shown per row, and the name of
    the output file. */
module HtmlGenerator {
  import opened Wrappers
  import opened Text
  import opened Ordering
  import opened FormattedCsv
  import Calendar
  import FormatterApp
  import E = Eligibility
  import Points

  // ---------------------------------------------------------------------
  // Month

  /** The week number of each label, `None` where the source raises. */
  function LabelWeeks(labels: seq<string>): (ws: seq<Option<int>>)
    ensures |ws| == |labels| && forall i :: 0 <= i < |labels| ==> ws[i] == Calendar.LabelWeek(labels[i])
  {
    seq(|labels|, i requires 0 <= i < |labels| => Calendar.LabelWeek(labels[i]))
  }

  /** The smallest of the week numbers; `None` when there are none, an
      error at a label that gives no week number. */
  function MinWeek(ws: seq<Option<int>>): Result<Option<int>, string> {
    if ws == [] then Ok(None)
    else
      match MinWeek(ws[..|ws| - 1])
      case Err(e) => Err(e)
      case Ok(first) =>
        match ws[|ws| - 1]
        case None => Err(Calendar.BadLabel)
        case Some(w) => Ok(Some(if first.None? || w < first.value then w else first.value))
  }

  function MinLabelWeek(labels: seq<string>): Result<Option<int>, string> {
    MinWeek(LabelWeeks(labels))
  }

  /** The loop raises exactly when some label has no week number; it finds
      no week exactly when there are no labels; otherwise it finds the week
      of one of the labels, and none is smaller. */
  lemma {:induction false} MinWeekSpec(ws: seq<Option<int>>)
    ensures MinWeek(ws).Err? <==> exists i :: 0 <= i < |ws| && ws[i].None?
    ensures MinWeek(ws) == Ok(None) <==> ws == []
    ensures MinWeek(ws).Ok? && MinWeek(ws).value.Some? ==>
              (exists i :: 0 <= i < |ws| && ws[i] == MinWeek(ws).value) &&
              forall i :: 0 <= i < |ws| ==> ws[i].Some? && MinWeek(ws).value.value <= ws[i].value
  {
    if ws != [] {
      var init := ws[..|ws| - 1];
      var n := |ws| - 1;
      MinWeekSpec(init);
      assert forall i :: 0 <= i < n ==> ws[i] == init[i];
      if MinWeek(init).Err? {
        var i :| 0 <= i < |init| && init[i].None?;
        assert ws[i].None?;
      } else if ws[n].Some? {
        var first := MinWeek(init).value;
        if first.Some? && first.value <= ws[n].value {
          var i :| 0 <= i < |init| && init[i] == first;
          assert ws[i] == first;
        }
      }
    }
  }

  lemma LabelWeeksOfTwo(a: string, b: string)
    ensures LabelWeeks([a, b]) == [Calendar.LabelWeek(a), Calendar.LabelWeek(b)]
  {
  }

  /** The loop over two labels with week numbers keeps the smaller one. */
  lemma MinWeekOfTwo(x: int, y: int)
    ensures MinWeek([Some(x), Some(y)]) == Ok(Some(if y < x then y else x))
  {
    var ws := [Some(x), Some(y)];
    assert ws[..1] == [Some(x)];
    assert ws[..1][..0] == [];
    assert MinWeek(ws[..1]) == Ok(Some(x));
  }

  /** Once a prefix fails, the whole loop fails. */
  lemma {:induction false} FailurePersists(ws: seq<Option<int>>, i: nat)
    requires i <= |ws| && MinWeek(ws[..i]) == Err(Calendar.BadLabel)
    ensures MinWeek(ws) == Err(Calendar.BadLabel)
    decreases |ws| - i
  {
    if i == |ws| {
      assert ws[..i] == ws;
    } else {
      assert ws[..i + 1][..i] == ws[..i];
      FailurePersists(ws, i + 1);
    }
  }

  /** The `first_week` loop: the minimum of the label weeks, stopping with
      an error at the first label that gives none. */
  method FirstWeek(labels: seq<string>) returns (r: Result<Option<int>, string>)
    ensures r == MinLabelWeek(labels)
  {
    ghost var ws := LabelWeeks(labels);
    var first: Option<int> := None;
    for i := 0 to |labels|
      invariant MinWeek(ws[..i]) == Ok(first)
    {
      assert ws[..i + 1][..i] == ws[..i];
      var week := Calendar.LabelWeek(labels[i]);
      if week.None? {
        FailurePersists(ws, i + 1);
        return Err(Calendar.BadLabel);
      }
      if first.None? || week.value < first.value {
        first := week;
      }
    }
    assert ws[..|labels|] == ws;
    return Ok(first);
  }

  /** The month of the report: the smallest week of the labels through the
      month table, "Mai" by default; an error when a label has no week. */
  method Month(rows: seq<Row>) returns (month: Result<string, string>)
    ensures month.Err? <==> MinLabelWeek(CalendarWeeks(rows)).Err?
    ensures month.Ok? ==> month.value == Calendar.ReportMonth(MinLabelWeek(CalendarWeeks(rows)).value)
  {
    var first := FirstWeek(CalendarWeeks(rows));
    if first.Err? {
      return Err(first.error);
    }
    var name := Calendar.MonthLookup(first.value);
    return Ok(name);
  }

  // ---------------------------------------------------------------------
  // Week sections

  /** A row takes part in the week sections when its week label and its
      reference id are present. */
  predicate Grouped(r: Row) {
    r.week.Some? && r.refId.Some?
  }

  /** The week labels of the grouped rows, in row order. */
  function GroupedWeeks(rows: seq<Row>): seq<string> {
    if rows == [] then []
    else
      var last := rows[|rows| - 1];
      GroupedWeeks(rows[..|rows| - 1]) + (if Grouped(last) then [last.week.value] else [])
  }

  /** The grouped rows of one week label, in row order. */
  function WeekGroup(rows: seq<Row>, w: string): seq<Row> {
    if rows == [] then []
    else
      var last := rows[|rows| - 1];
      WeekGroup(rows[..|rows| - 1], w) + (if Grouped(last) && last.week == Some(w) then [last] else [])
  }

  /** A week's group holds exactly the grouped rows with its label. */
  lemma {:induction false} WeekGroupMember(rows: seq<Row>, w: string, r: Row)
    ensures r in WeekGroup(rows, w) <==> r in rows && Grouped(r) && r.week == Some(w)
  {
    if rows != [] {
      var init := rows[..|rows| - 1];
      WeekGroupMember(init, w, r);
      assert rows == init + [rows[|rows| - 1]];
    }
  }

  /** A label has a section exactly when its group is not empty. */
  lemma {:induction false} GroupedWeeksMember(rows: seq<Row>, w: string)
    ensures w in GroupedWeeks(rows) <==> WeekGroup(rows, w) != []
  {
    if rows != [] {
      GroupedWeeksMember(rows[..|rows| - 1], w);
    }
  }

  lemma GroupStep(rows: seq<Row>, i: nat)
    requires i < |rows|
    ensures GroupedWeeks(rows[..i + 1]) ==
              GroupedWeeks(rows[..i]) + (if Grouped(rows[i]) then [rows[i].week.value] else [])
    ensures forall w :: WeekGroup(rows[..i + 1], w) ==
              WeekGroup(rows[..i], w) + (if Grouped(rows[i]) && rows[i].week == Some(w) then [rows[i]] else [])
  {
    assert rows[..i + 1][..i] == rows[..i];
  }

  /** The `weeks_data` loop: a dict from label to rows, filled in row order;
      `order` is the order of its keys, which a dict keeps as inserted. */
  method GroupByWeek(rows: seq<Row>) returns (order: seq<string>, groups: map<string, seq<Row>>)
    ensures order == Unique(GroupedWeeks(rows))
    ensures forall w :: w in groups <==> w in order
    ensures forall w :: w in groups ==> groups[w] == WeekGroup(rows, w)
  {
    order := [];
    groups := map[];
    for i := 0 to |rows|
      invariant order == Unique(GroupedWeeks(rows[..i]))
      invariant forall w :: w in groups <==> w in order
      invariant forall w :: w in groups ==> groups[w] == WeekGroup(rows[..i], w)
    {
      GroupStep(rows, i);
      var row := rows[i];
      if row.week.Some? && row.refId.Some? {
        var w := row.week.value;
        UniqueSnoc(GroupedWeeks(rows[..i]), w);
        if w !in groups {
          UniqueSpec(GroupedWeeks(rows[..i]));
          GroupedWeeksMember(rows[..i], w);
          groups := groups[w := [row]];
          order := order + [w];
        } else {
          groups := groups[w := groups[w] + [row]];
        }
      } else {
        assert GroupedWeeks(rows[..i + 1]) == GroupedWeeks(rows[..i]);
      }
    }
    assert rows[..|rows|] == rows;
  }

  // ---------------------------------------------------------------------
  // Week total

  predicate Cancelled(r: Row) {
    r.status == Some("cancelled")
  }

  /** The week total, the reference definition: the parsed points of every
      row not 'cancelled', unparsable points adding nothing. */
  function WeekTotalOf(rows: seq<Row>): real {
    if rows == [] then 0.0
    else
      var last := rows[|rows| - 1];
      WeekTotalOf(rows[..|rows| - 1]) +
      (if !Cancelled(last) && ParsePoints(last.points).Some? then ParsePoints(last.points).value else 0.0)
  }

  /** The `total_points` loop. */
  method WeekTotal(rows: seq<Row>) returns (total: real)
    ensures total == WeekTotalOf(rows)
  {
    total := 0.0;
    for i := 0 to |rows|
      invariant total == WeekTotalOf(rows[..i])
    {
      assert rows[..i + 1][..i] == rows[..i];
      var row := rows[i];
      if row.status != Some("cancelled") {
        var value := ParsePoints(row.points);
        if value.Some? {
          total := total + value.value;
        }
      }
    }
    assert rows[..|rows|] == rows;
  }

  lemma {:induction false} WeekTotalSplit(a: seq<Row>, b: seq<Row>)
    ensures WeekTotalOf(a + b) == WeekTotalOf(a) + WeekTotalOf(b)
    decreases |b|
  {
    if b == [] {
      assert a + b == a;
    } else {
      WeekTotalSplit(a, b[..|b| - 1]);
      Ordering.LastOfConcat(a, b);
    }
  }

  /** A cancelled row adds nothing wherever it stands; any other row adds
      its parsed points, or nothing when they do not parse. */
  lemma RowShare(a: seq<Row>, x: Row, b: seq<Row>)
    ensures Cancelled(x) ==> WeekTotalOf(a + [x] + b) == WeekTotalOf(a + b)
    ensures !Cancelled(x) && ParsePoints(x.points).Some? ==>
              WeekTotalOf(a + [x] + b) == WeekTotalOf(a + b) + ParsePoints(x.points).value
    ensures ParsePoints(x.points).None? ==> WeekTotalOf(a + [x] + b) == WeekTotalOf(a + b)
  {
    WeekTotalSplit(a + [x], b);
    WeekTotalSplit(a, [x]);
    WeekTotalSplit(a, b);
    assert [x][..0] == [];
  }

  /** Half-points of the rows not 'cancelled'. */
  function UncancelledHalves(rows: seq<Row>, hs: seq<Points.HalfPoints>): nat
    requires |hs| == |rows|
  {
    if rows == [] then 0
    else
      var n := |rows| - 1;
      UncancelledHalves(rows[..n], hs[..n]) + (if Cancelled(rows[n]) then 0 else hs[n])
  }

  /** On scores as the formatter writes them ("3,0", "2,5"), the week total
      is exactly the half-point sum of the rows not 'cancelled', halved. */
  lemma {:induction false} FormatterScoresTotal(rows: seq<Row>, hs: seq<Points.HalfPoints>)
    requires |hs| == |rows|
    requires forall i :: 0 <= i < |rows| ==> rows[i].points == Some(FormatterApp.CommaScore(hs[i]))
    ensures WeekTotalOf(rows) == UncancelledHalves(rows, hs) as real / 2.0
  {
    if rows != [] {
      var n := |rows| - 1;
      FormatterScoresTotal(rows[..n], hs[..n]);
      CommaScoreParses(hs[n]);
    }
  }

  /** The formatter's own cancellation status, "cancellation", is not
      'cancelled': such a row counts toward the week total here, while the
      formatter's subtotal leaves it out. */
  lemma CancellationIsCounted(x: Row, h: Points.HalfPoints)
    requires x.status == Some("cancellation") && x.points == Some(FormatterApp.CommaScore(h))
    ensures WeekTotalOf([x]) == h as real / 2.0
  {
    CommaScoreParses(h);
    assert [x][..0] == [];
  }

  // ---------------------------------------------------------------------
  // Week bonus

  predicate HtmlApproved(r: Row) {
    r.status == Some("approved") || r.status == Some("conditionally-approved")
  }

  /** The statuses the share is taken over. */
  predicate HtmlCounted(r: Row) {
    HtmlApproved(r) || r.status == Some("cancelled")
  }

  function ApprovedCount(rows: seq<Row>): nat {
    if rows == [] then 0
    else ApprovedCount(rows[..|rows| - 1]) + (if HtmlApproved(rows[|rows| - 1]) then 1 else 0)
  }

  function CountedCount(rows: seq<Row>): nat {
    if rows == [] then 0
    else CountedCount(rows[..|rows| - 1]) + (if HtmlCounted(rows[|rows| - 1]) then 1 else 0)
  }

  /** `bonus_eligible`: "ja" when some row is counted and at least 70% of
      the counted rows are approved, by cross-multiplication. */
  function WeekBonus(rows: seq<Row>): string {
    if CountedCount(rows) > 0 && 10 * ApprovedCount(rows) >= 7 * CountedCount(rows) then "ja" else "nein"
  }

  /** A week of one row gets the bonus exactly when that row is approved. */
  lemma SingleRowBonus(x: Row)
    ensures WeekBonus([x]) == if HtmlApproved(x) then "ja" else "nein"
  {
    assert [x][..0] == [];
    assert ApprovedCount([x]) == (if HtmlApproved(x) then 1 else 0);
    assert CountedCount([x]) == (if HtmlCounted(x) then 1 else 0);
  }

  /** The cross-multiplied test is the share test of the source. */
  lemma WeekBonusIsShare(rows: seq<Row>)
    ensures WeekBonus(rows) == "ja" <==>
              CountedCount(rows) > 0 && ApprovedCount(rows) as real / CountedCount(rows) as real >= 0.7
  {
    var a := ApprovedCount(rows) as real;
    var c := CountedCount(rows) as real;
    if c > 0.0 {
      ShareAtLeast(a, c);
    }
  }

  lemma ShareAtLeast(a: real, c: real)
    requires c > 0.0
    ensures a / c >= 0.7 <==> 10.0 * a >= 7.0 * c
  {
    var q := a / c;
    assert a == q * c;
  }

  lemma {:induction false} CountsSplit(a: seq<Row>, b: seq<Row>)
    ensures ApprovedCount(a + b) == ApprovedCount(a) + ApprovedCount(b)
    ensures CountedCount(a + b) == CountedCount(a) + CountedCount(b)
    decreases |b|
  {
    if b == [] {
      assert a + b == a;
    } else {
      var init := b[..|b| - 1];
      CountsSplit(a, init);
      assert (a + b)[..|a + b| - 1] == a + init;
    }
  }

  /** Every approved row is counted. */
  lemma {:induction false} ApprovedAtMostCounted(rows: seq<Row>)
    ensures ApprovedCount(rows) <= CountedCount(rows)
  {
    if rows != [] {
      ApprovedAtMostCounted(rows[..|rows| - 1]);
    }
  }

  /** A row of any other status, 'active' and 'billable' among them, never
      changes the week bonus. */
  lemma OtherStatusIgnored(a: seq<Row>, x: Row, b: seq<Row>)
    requires !HtmlCounted(x)
    ensures WeekBonus(a + [x] + b) == WeekBonus(a + b)
  {
    CountsSplit(a + [x], b);
    CountsSplit(a, [x]);
    CountsSplit(a, b);
    assert [x][..0] == [];
  }

  /** One more approved row never takes a week's bonus away. */
  lemma ApprovalNeverHurts(rows: seq<Row>, x: Row)
    requires HtmlApproved(x) && WeekBonus(rows) == "ja"
    ensures WeekBonus(rows + [x]) == "ja"
  {
    CountsSplit(rows, [x]);
    assert [x][..0] == [];
  }

  /** A week with no counted row gets "nein". */
  lemma {:induction false} NothingCountedNoBonus(rows: seq<Row>)
    requires forall i :: 0 <= i < |rows| ==> !HtmlCounted(rows[i])
    ensures CountedCount(rows) == 0 && WeekBonus(rows) == "nein"
  {
    if rows != [] {
      NothingCountedNoBonus(rows[..|rows| - 1]);
    }
  }

  /** The week bonus differs from the formatter's rule: the formatter's
      spelling "conditionally approved" is not counted here, so a week of
      such rows gets "nein" where the formatter says eligible. */
  lemma BonusIgnoresCoreSpelling(x: Row)
    requires x.status == Some("conditionally approved")
    ensures WeekBonus([x]) == "nein"
    ensures E.CalculateBonusEligibility(["conditionally approved"]) == E.Eligible
  {
    assert [x][..0] == [];
    assert "conditionally approved"[13] != "conditionally-approved"[13];
    assert !HtmlCounted(x);
    assert ApprovedCount([x]) == 0 && CountedCount([x]) == 0;
  }

  /** ... and 'active' rows dilute the formatter's share but not this one. */
  lemma BonusIgnoresActive(x: Row, y: Row)
    requires x.status == Some("approved") && y.status == Some("active")
    ensures WeekBonus([x, y]) == "ja"
    ensures E.CalculateBonusEligibility(["approved", "active"]) == E.NotEligible
  {
    assert [x, y][..1] == [x];
    assert [x][..0] == [];
    assert HtmlApproved(x) && !HtmlCounted(y);
    assert ApprovedCount([x]) == 1 && CountedCount([x]) == 1;
    assert ApprovedCount([x, y]) == 1 && CountedCount([x, y]) == 1;
  }

  // ---------------------------------------------------------------------
  // Points shown per row

  /** `str(float(...)).replace('.', ',')`, with the spelling of a float as a
      parameter; "0,0" where the points do not parse. */
  function PointsDisplay(p: Option<string>, spell: real -> string): string {
    match ParsePoints(p)
    case Some(v) => ReplaceChar(spell(v), '.', ',')
    case None => "0,0"
  }

  /** The shown points never hold '.'. */
  lemma DisplayHasNoPeriod(p: Option<string>, spell: real -> string)
    ensures '.' !in PointsDisplay(p, spell)
  {
    match ParsePoints(p)
    case Some(v) =>
      ReplaceCharRemoves(spell(v), '.', ',');
    case None =>
      assert "0,0" == ['0', ',', '0'];
  }

  /** A score the formatter wrote shows as written, when floats are spelled
      the way the formatter spells them. */
  lemma DisplayRoundTrip(h: Points.HalfPoints, spell: real -> string)
    requires spell(h as real / 2.0) == FormatterApp.FloatScore(h)
    ensures PointsDisplay(Some(FormatterApp.CommaScore(h)), spell) == FormatterApp.CommaScore(h)
  {
    CommaScoreParses(h);
  }

  // ---------------------------------------------------------------------
  // File name

  predicate IsSeparator(c: char) {
    IsSpace(c) || c == '-'
  }

  /** The characters of `[\w\s-]`. */
  predicate KeptNameChar(c: char) {
    IsWordChar(c) || IsSeparator(c)
  }

  /** The characters Windows refuses in file names: `[<>:"/\\|?*]`. */
  predicate IsReserved(c: char) {
    c == '<' || c == '>' || c == ':' || c == '"' || c == '/' || c == '\\' || c == '|' || c == '?' || c == '*'
  }

  predicate AllWordChars(s: string) {
    forall i :: 0 <= i < |s| ==> IsWordChar(s[i])
  }

  /** `re.sub(r'[^\w\s-]', '', s)` */
  function KeepNameChars(s: string): (r: string)
    ensures forall i :: 0 <= i < |r| ==> KeptNameChar(r[i])
  {
    if s == [] then [] else (if KeptNameChar(s[0]) then [s[0]] else []) + KeepNameChars(s[1..])
  }

  /** `re.sub(r'[-\s]+', '_', s)`: every run of separators becomes one '_';
      `inRun` says whether the text before `s` ended in a separator. */
  function CollapseSeparators(s: string, inRun: bool): string {
    if s == [] then []
    else if IsSeparator(s[0]) then (if inRun then [] else ['_']) + CollapseSeparators(s[1..], true)
    else [s[0]] + CollapseSeparators(s[1..], false)
  }

  /** `re.sub(r'[<>:"/\\|?*]', '', s)` */
  function RemoveReserved(s: string): string {
    if s == [] then [] else (if IsReserved(s[0]) then [] else [s[0]]) + RemoveReserved(s[1..])
  }

  /** `safe_name`, the three substitutions and the strip between them. */
  function SafeName(name: string): string {
    RemoveReserved(CollapseSeparators(Strip(KeepNameChars(name)), false))
  }

  /** `{id}_{safe_name}_Realisierungsdaten.html` */
  function HtmlFilename(id: string, name: string): string {
    id + "_" + SafeName(name) + "_Realisierungsdaten.html"
  }

  lemma WordCharFacts(c: char)
    requires IsWordChar(c)
    ensures !IsSpace(c) && !IsSeparator(c) && !IsReserved(c)
  {
  }

  lemma {:induction false} StripKeepsChars(s: string, P: char -> bool)
    requires forall i :: 0 <= i < |s| ==> P(s[i])
    ensures forall i :: 0 <= i < |Strip(s)| ==> P(Strip(s)[i])
  {
    var l := StripLeft(s);
    assert forall i :: 0 <= i < |l| ==> l[i] == s[|s| - |l| + i];
    var r := StripRight(l);
    assert forall i :: 0 <= i < |r| ==> r[i] == l[i];
  }

  lemma {:induction false} CollapseGivesWordChars(s: string, inRun: bool)
    requires forall i :: 0 <= i < |s| ==> KeptNameChar(s[i])
    ensures AllWordChars(CollapseSeparators(s, inRun))
    decreases |s|
  {
    if s != [] {
      CollapseGivesWordChars(s[1..], IsSeparator(s[0]));
    }
  }

  lemma {:induction false} RemoveReservedOfWords(s: string)
    requires AllWordChars(s)
    ensures RemoveReserved(s) == s
  {
    if s != [] {
      WordCharFacts(s[0]);
      RemoveReservedOfWords(s[1..]);
    }
  }

  /** The safe name is made of word characters only: no whitespace, no
      '-', none of the reserved characters; and the last substitution never
      finds anything to remove. */
  lemma SafeNameChars(name: string)
    ensures AllWordChars(SafeName(name))
    ensures forall i :: 0 <= i < |SafeName(name)| ==>
              !IsSpace(SafeName(name)[i]) && SafeName(name)[i] != '-' && !IsReserved(SafeName(name)[i])
    ensures SafeName(name) == CollapseSeparators(Strip(KeepNameChars(name)), false)
  {
    var kept := KeepNameChars(name);
    StripKeepsChars(kept, KeptNameChar);
    var collapsed := CollapseSeparators(Strip(kept), false);
    CollapseGivesWordChars(Strip(kept), false);
    RemoveReservedOfWords(collapsed);
    forall i | 0 <= i < |collapsed| ensures !IsSpace(collapsed[i]) && collapsed[i] != '-' && !IsReserved(collapsed[i]) {
      WordCharFacts(collapsed[i]);
    }
  }

  lemma {:induction false} KeepOfWords(s: string)
    requires AllWordChars(s)
    ensures KeepNameChars(s) == s
  {
    if s != [] {
      KeepOfWords(s[1..]);
    }
  }

  lemma {:induction false} CollapseOfWords(s: string)
    requires AllWordChars(s)
    ensures CollapseSeparators(s, false) == s && CollapseSeparators(s, true) == s
  {
    if s != [] {
      WordCharFacts(s[0]);
      CollapseOfWords(s[1..]);
    }
  }

  /** A name already safe stays as it is: the safe name is idempotent. */
  lemma SafeNameIdempotent(name: string)
    ensures SafeName(SafeName(name)) == SafeName(name)
  {
    var s := SafeName(name);
    SafeNameChars(name);
    KeepOfWords(s);
    if s != [] {
      WordCharFacts(s[0]);
      WordCharFacts(s[|s| - 1]);
      StripUnpadded(s);
    }
    CollapseOfWords(s);
    RemoveReservedOfWords(s);
  }

  lemma {:induction false} KeepSplit(a: string, b: string)
    ensures KeepNameChars(a + b) == KeepNameChars(a) + KeepNameChars(b)
  {
    if a != [] {
      assert (a + b)[1..] == a[1..] + b;
      KeepSplit(a[1..], b);
    } else {
      assert a + b == b;
    }
  }

  lemma {:induction false} CollapseAfterWords(a: string, t: string, inRun: bool)
    requires a != [] && AllWordChars(a)
    ensures CollapseSeparators(a + t, inRun) == a + CollapseSeparators(t, false)
  {
    WordCharFacts(a[0]);
    assert (a + t)[1..] == a[1..] + t;
    if |a| > 1 {
      CollapseAfterWords(a[1..], t, false);
    } else {
      assert a[1..] + t == t;
    }
  }

  lemma {:induction false} CollapseAfterRun(sep: string, t: string, inRun: bool)
    requires sep != [] && forall i :: 0 <= i < |sep| ==> IsSeparator(sep[i])
    ensures CollapseSeparators(sep + t, inRun) == (if inRun then [] else ['_']) + CollapseSeparators(t, true)
  {
    assert (sep + t)[1..] == sep[1..] + t;
    if |sep| > 1 {
      CollapseAfterRun(sep[1..], t, true);
    } else {
      assert sep[1..] + t == t;
    }
  }

  /** Two words joined by any run of spaces and hyphens give the words
      joined by one '_': "Anna  Lena" and "Anna-Lena" both give
      "Anna_Lena". */
  lemma SafeNameJoins(a: string, sep: string, b: string)
    requires a != [] && b != [] && AllWordChars(a) && AllWordChars(b)
    requires sep != [] && forall i :: 0 <= i < |sep| ==> IsSeparator(sep[i])
    ensures SafeName(a + sep + b) == a + "_" + b
  {
    KeepJoined(a, sep, b);
    StripJoined(a, sep, b);
    CollapseJoined(a, sep, b);
    JoinedWords(a, b);
    RemoveReservedOfWords(a + "_" + b);
  }

  lemma KeepJoined(a: string, sep: string, b: string)
    requires AllWordChars(a) && AllWordChars(b)
    requires forall i :: 0 <= i < |sep| ==> IsSeparator(sep[i])
    ensures KeepNameChars(a + sep + b) == a + sep + b
  {
    KeepSplit(a + sep, b);
    KeepSplit(a, sep);
    KeepOfWords(a);
    KeepOfWords(b);
    KeepSeparators(sep);
  }

  lemma StripJoined(a: string, sep: string, b: string)
    requires a != [] && b != [] && AllWordChars(a) && AllWordChars(b)
    ensures Strip(a + sep + b) == a + sep + b
  {
    var s := a + sep + b;
    WordCharFacts(a[0]);
    WordCharFacts(b[|b| - 1]);
    assert s[0] == a[0];
    assert s[|s| - 1] == b[|b| - 1];
    StripUnpadded(s);
  }

  lemma CollapseJoined(a: string, sep: string, b: string)
    requires a != [] && b != [] && AllWordChars(a) && AllWordChars(b)
    requires sep != [] && forall i :: 0 <= i < |sep| ==> IsSeparator(sep[i])
    ensures CollapseSeparators(a + sep + b, false) == a + "_" + b
  {
    assert a + sep + b == a + (sep + b);
    CollapseAfterWords(a, sep + b, false);
    CollapseAfterRun(sep, b, false);
    CollapseOfWords(b);
    assert a + (['_'] + b) == a + "_" + b;
  }

  lemma JoinedWords(a: string, b: string)
    requires AllWordChars(a) && AllWordChars(b)
    ensures AllWordChars(a + "_" + b)
  {
    var r := a + "_" + b;
    forall i | 0 <= i < |r| ensures IsWordChar(r[i]) {
      if i < |a| {
        assert r[i] == a[i];
      } else if i > |a| {
        assert r[i] == b[i - |a| - 1];
      }
    }
  }

  lemma {:induction false} KeepSeparators(sep: string)
    requires forall i :: 0 <= i < |sep| ==> IsSeparator(sep[i])
    ensures KeepNameChars(sep) == sep
  {
    if sep != [] {
      KeepSeparators(sep[1..]);
    }
  }

  /** The file stays inside the output directory: with an id free of path
      separators, the name holds neither '/' nor '\\'. */
  lemma HtmlFilenameIsPlain(id: string, name: string)
    requires '/' !in id && '\\' !in id
    ensures '/' !in HtmlFilename(id, name) && '\\' !in HtmlFilename(id, name)
  {
    SafeNameIsPlain(name);
    SuffixIsPlain();
  }

  lemma SuffixIsPlain()
    ensures '/' !in "_Realisierungsdaten.html" && '\\' !in "_Realisierungsdaten.html"
  {
    var suffix := "_Realisierungsdaten.html";
    assert forall k :: 0 <= k < |suffix| ==> suffix[k] != '/' && suffix[k] != '\\';
  }

  lemma SafeNameIsPlain(name: string)
    ensures '/' !in SafeName(name) && '\\' !in SafeName(name)
  {
    SafeNameChars(name);
    var safe := SafeName(name);
    assert forall i :: 0 <= i < |safe| ==> safe[i] != '/' && safe[i] != '\\';
  }
}
