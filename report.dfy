/** The report assembler of csv_formatter.py (`format_csv`, from the bonus
    map to the list of output rows). The normalised records are sorted by
    week key, name and billing group; for every non-zero week key in
    ascending order and every fundraiser name of that week in ascending
    order, the report holds a block: the fundraiser's detail rows followed
    by one subtotal row. */
module Report {
  import opened Wrappers
  import opened Text
  import opened Ordering
  import E = Eligibility
  import opened Ledger
  import Points

  // ---------------------------------------------------------------------
  // Fundraiser-wide bonus

  /** The statuses of one fundraiser's records (`df[df['Fundraiser ID'] == id]`). */
  function StatusesOf(records: seq<Record>, id: string): seq<string> {
    if records == [] then []
    else (if records[0].fundraiserId == id then [records[0].status] else []) + StatusesOf(records[1..], id)
  }

  /** A fundraiser's eligibility over all of its records, in every week. */
  function FundraiserBonus(records: seq<Record>, id: string): E.Eligibility {
    E.CalculateBonusEligibility(StatusesOf(records, id))
  }

  /** The `fundraiser_bonus` dictionary: one entry per fundraiser id, filled
      in first-occurrence order, each the rule over that id's records. */
  method BuildBonusMap(records: seq<Record>) returns (bonus: map<string, E.Eligibility>)
    ensures forall id :: id in bonus <==> exists r :: r in records && r.fundraiserId == id
    ensures forall id :: id in bonus ==> bonus[id] == FundraiserBonus(records, id)
  {
    bonus := map[];
    var i := 0;
    while i < |records|
      invariant 0 <= i <= |records|
      invariant forall id :: id in bonus <==> exists k :: 0 <= k < i && records[k].fundraiserId == id
      invariant forall id :: id in bonus ==> bonus[id] == FundraiserBonus(records, id)
    {
      var id := records[i].fundraiserId;
      if id !in bonus {
        bonus := bonus[id := FundraiserBonus(records, id)];
      }
      assert id in bonus;
      i := i + 1;
    }
    forall id | exists r :: r in records && r.fundraiserId == id
      ensures id in bonus
    {
      var r :| r in records && r.fundraiserId == id;
      var k :| 0 <= k < |records| && records[k] == r;
    }
  }

  // ---------------------------------------------------------------------
  // Sorting

  /** Order on an optional text with missing values last. */
  predicate OptionLess(a: Option<string>, b: Option<string>) {
    match a
    case None => false
    case Some(x) =>
      match b
      case None => true
      case Some(y) => Less(x, y)
  }

  /** `sort_values(['KW_num', 'Fundraiser Name', 'Billing group'])` */
  predicate RecordLt(a: Record, b: Record) {
    a.weekNum < b.weekNum ||
    (a.weekNum == b.weekNum &&
     (OptionLess(a.name, b.name) || (a.name == b.name && OptionLess(a.billingGroup, b.billingGroup))))
  }

  lemma OptionLessFacts(a: Option<string>, b: Option<string>, c: Option<string>)
    ensures !OptionLess(a, a)
    ensures OptionLess(a, b) && OptionLess(b, c) ==> OptionLess(a, c)
    ensures a != b ==> OptionLess(a, b) || OptionLess(b, a)
  {
    if a.Some? {
      LessIrreflexive(a.value);
      if b.Some? && c.Some? && Less(a.value, b.value) && Less(b.value, c.value) {
        LessTransitive(a.value, b.value, c.value);
      }
      if b.Some? && a != b {
        LessTotal(a.value, b.value);
      }
    }
  }

  /** `b` is not sorted before `a`: `a` comes first or the two tie. */
  lemma RecordNotLt(a: Record, b: Record)
    ensures !RecordLt(b, a) <==>
      RecordLt(a, b) || (a.weekNum == b.weekNum && a.name == b.name && a.billingGroup == b.billingGroup)
  {
    OptionLessFacts(a.name, b.name, a.name);
    OptionLessFacts(b.name, a.name, b.name);
    OptionLessFacts(a.billingGroup, b.billingGroup, a.billingGroup);
    OptionLessFacts(b.billingGroup, a.billingGroup, b.billingGroup);
  }

  lemma RecordLtFacts(a: Record, b: Record, c: Record)
    ensures !RecordLt(a, a)
    ensures RecordLt(a, b) && RecordLt(b, c) ==> RecordLt(a, c)
    ensures !RecordLt(b, a) && !RecordLt(c, b) ==> !RecordLt(c, a)
  {
    OptionLessFacts(a.name, b.name, c.name);
    OptionLessFacts(a.billingGroup, b.billingGroup, c.billingGroup);
    RecordNotLt(a, b);
    RecordNotLt(b, c);
    RecordNotLt(a, c);
    OptionLessFacts(c.name, a.name, c.name);
    OptionLessFacts(c.billingGroup, a.billingGroup, c.billingGroup);
  }

  /** The sort keys order records strictly and weakly (ties are records with
      equal keys). */
  lemma RecordLtIsStrictWeakOrder()
    ensures IsStrictWeakOrder(RecordLt)
  {
    forall a: Record, b: Record, c: Record
      ensures !RecordLt(a, a)
      ensures RecordLt(a, b) && RecordLt(b, c) ==> RecordLt(a, c)
      ensures !RecordLt(b, a) && !RecordLt(c, b) ==> !RecordLt(c, a)
    {
      RecordLtFacts(a, b, c);
    }
  }

  function SortedRecords(records: seq<Record>): seq<Record> {
    SortStable(RecordLt, records)
  }

  /** The sorted frame holds the same records, ordered by the sort keys. */
  lemma SortedRecordsSpec(records: seq<Record>)
    ensures multiset(SortedRecords(records)) == multiset(records)
    ensures SortedBy(RecordLt, SortedRecords(records))
  {
    RecordLtIsStrictWeakOrder();
    SortStableSpec(RecordLt, records);
  }

  lemma SortedRecordsMember(records: seq<Record>, r: Record)
    ensures r in SortedRecords(records) <==> r in records
  {
    SortedRecordsSpec(records);
    var s := SortedRecords(records);
    assert r in s <==> r in multiset(s);
    assert r in records <==> r in multiset(records);
  }

  // ---------------------------------------------------------------------
  // Weeks and names

  predicate NatLt(a: nat, b: nat) {
    a < b
  }

  lemma NatLtIsStrictTotalOrder()
    ensures IsStrictTotalOrder(NatLt)
  {
  }

  lemma StringLessIsStrictTotalOrder()
    ensures IsStrictTotalOrder(Less)
  {
    forall a: string, b: string, c: string
      ensures !Less(a, a)
      ensures Less(a, b) && Less(b, c) ==> Less(a, c)
      ensures a != b ==> Less(a, b) || Less(b, a)
    {
      LessIrreflexive(a);
      if Less(a, b) && Less(b, c) {
        LessTransitive(a, b, c);
      }
      if a != b {
        LessTotal(a, b);
      }
    }
  }

  function WeekNums(rows: seq<Record>): seq<nat> {
    if rows == [] then [] else [rows[0].weekNum] + WeekNums(rows[1..])
  }

  lemma {:induction false} WeekNumsMember(rows: seq<Record>, r: Record)
    requires r in rows
    ensures r.weekNum in WeekNums(rows)
  {
    if rows[0] != r {
      WeekNumsMember(rows[1..], r);
    }
  }

  /** `sorted(df_sorted['KW_num'].unique())` */
  function Weeks(sorted: seq<Record>): seq<nat> {
    SortedUnique(NatLt, WeekNums(sorted))
  }

  /** The week selection of the report: for a week key up to 12 every label
      containing "KW{n}" or "{n}/2025", above 12 only the label "{n}/2025". */
  predicate InWeek(r: Record, n: nat) {
    r.week.Some? &&
    if n <= 12 then
      Contains(r.week.value, "KW" + NatToString(n)) || Contains(r.week.value, NatToString(n) + "/2025")
    else r.week.value == NatToString(n) + "/2025"
  }

  /** `kw_data`: the sorted records the week selects, in sorted order. */
  function WeekRows(sorted: seq<Record>, n: nat): seq<Record> {
    if sorted == [] then []
    else (if InWeek(sorted[0], n) then [sorted[0]] else []) + WeekRows(sorted[1..], n)
  }

  /** The week's rows are exactly the records its selection takes. */
  lemma {:induction false} WeekRowsMember(sorted: seq<Record>, n: nat, r: Record)
    ensures r in WeekRows(sorted, n) <==> r in sorted && InWeek(r, n)
  {
    if sorted != [] {
      WeekRowsMember(sorted[1..], n, r);
      assert sorted == [sorted[0]] + sorted[1..];
    }
  }

  /** The present names of `rows` (`dropna()`). */
  function PresentNames(rows: seq<Record>): seq<string> {
    if rows == [] then []
    else (if rows[0].name.Some? then [rows[0].name.value] else []) + PresentNames(rows[1..])
  }

  lemma {:induction false} PresentNamesHas(rows: seq<Record>, r: Record)
    requires r in rows && r.name.Some?
    ensures r.name.value in PresentNames(rows)
  {
    if rows[0] != r {
      PresentNamesHas(rows[1..], r);
    }
  }

  lemma {:induction false} PresentNamesFrom(rows: seq<Record>, x: string) returns (r: Record)
    requires x in PresentNames(rows)
    ensures r in rows && r.name == Some(x)
  {
    if rows[0].name == Some(x) {
      r := rows[0];
    } else {
      r := PresentNamesFrom(rows[1..], x);
    }
  }

  /** `sorted(kw_data['Fundraiser Name'].dropna().unique())` */
  function NamesIn(rows: seq<Record>): seq<string> {
    SortedUnique(Less, PresentNames(rows))
  }

  /** `fundraiser_data`: the rows carrying one name, in their order. */
  function NameRows(rows: seq<Record>, name: string): seq<Record> {
    if rows == [] then []
    else (if rows[0].name == Some(name) then [rows[0]] else []) + NameRows(rows[1..], name)
  }

  /** A name's rows are exactly the rows carrying that name. */
  lemma {:induction false} NameRowsMember(rows: seq<Record>, name: string, r: Record)
    ensures r in NameRows(rows, name) <==> r in rows && r.name == Some(name)
  {
    if rows != [] {
      NameRowsMember(rows[1..], name, r);
      assert rows == [rows[0]] + rows[1..];
    }
  }

  lemma NameRowsNonEmpty(rows: seq<Record>, name: string)
    requires name in NamesIn(rows)
    ensures NameRows(rows, name) != []
  {
    StringLessIsStrictTotalOrder();
    SortedUniqueSpec(Less, PresentNames(rows));
    var r := PresentNamesFrom(rows, name);
    NameRowsMember(rows, name, r);
  }

  // ---------------------------------------------------------------------
  // Subtotals

  /** `non_cancelled_data['points'].sum()`, in half-points. */
  function PointsTotal(rows: seq<Record>): Points.HalfPoints {
    if rows == [] then 0
    else PointsTotal(rows[..|rows| - 1]) +
         (if rows[|rows| - 1].status != "cancellation" then rows[|rows| - 1].points else 0)
  }

  lemma {:induction false} PointsTotalSplit(a: seq<Record>, b: seq<Record>)
    ensures PointsTotal(a + b) == PointsTotal(a) + PointsTotal(b)
    decreases |b|
  {
    if b == [] {
      assert a + b == a;
    } else {
      assert (a + b)[..|a + b| - 1] == a + b[..|b| - 1];
      PointsTotalSplit(a, b[..|b| - 1]);
    }
  }

  /** A "cancellation" row, wherever it stands, adds nothing to the subtotal;
      any other row adds its score. */
  lemma RowContribution(a: seq<Record>, x: Record, b: seq<Record>)
    ensures x.status == "cancellation" ==> PointsTotal(a + [x] + b) == PointsTotal(a + b)
    ensures x.status != "cancellation" ==> PointsTotal(a + [x] + b) == PointsTotal(a + b) + x.points
  {
    PointsTotalSplit(a + [x], b);
    PointsTotalSplit(a, [x]);
    PointsTotalSplit(a, b);
    assert [x][..0] == [];
  }

  /** A subtotal is at most the full score, 6 points, per row. */
  lemma {:induction false} PointsTotalBound(rows: seq<Record>)
    requires forall i :: 0 <= i < |rows| ==> rows[i].points <= 12
    ensures PointsTotal(rows) <= 12 * |rows|
  {
    if rows != [] {
      PointsTotalBound(rows[..|rows| - 1]);
    }
  }

  // ---------------------------------------------------------------------
  // Blocks and output rows

  /** One (week, fundraiser) block: its detail records, the subtotal and
      the fundraiser-wide bonus shown on the subtotal row. */
  datatype Block = Block(week: nat, name: string, rows: seq<Record>, total: Points.HalfPoints, bonus: E.Eligibility)

  /** A row of `final_rows`: a detail row (bonus column blank) or a subtotal. */
  datatype OutRow = Detail(record: Record) | Subtotal(total: Points.HalfPoints, bonus: E.Eligibility)

  /** The block of one name in one week. Its bonus is that of the first
      row's fundraiser id; the block of a name of the week is never empty
      (`NameRowsNonEmpty`), so the fallback is never taken. */
  function MakeBlock(records: seq<Record>, sorted: seq<Record>, week: nat, name: string): Block {
    var rows := NameRows(WeekRows(sorted, week), name);
    Block(week, name, rows, PointsTotal(rows),
          if rows == [] then E.NotEligible else FundraiserBonus(records, rows[0].fundraiserId))
  }

  function NameBlocks(records: seq<Record>, sorted: seq<Record>, week: nat, names: seq<string>): (bs: seq<Block>)
    ensures |bs| == |names|
  {
    if names == [] then []
    else NameBlocks(records, sorted, week, names[..|names| - 1]) + [MakeBlock(records, sorted, week, names[|names| - 1])]
  }

  /** The k-th block is the block of the k-th name. */
  lemma {:induction false} NameBlocksAt(records: seq<Record>, sorted: seq<Record>, week: nat, names: seq<string>, k: nat)
    requires k < |names|
    ensures NameBlocks(records, sorted, week, names)[k] == MakeBlock(records, sorted, week, names[k])
  {
    var init := names[..|names| - 1];
    if k < |init| {
      NameBlocksAt(records, sorted, week, init, k);
    }
  }

  /** The blocks of the listed weeks; week key 0 is skipped. */
  function WeekBlocks(records: seq<Record>, sorted: seq<Record>, weeks: seq<nat>): seq<Block> {
    if weeks == [] then []
    else
      var n := weeks[|weeks| - 1];
      WeekBlocks(records, sorted, weeks[..|weeks| - 1]) +
      (if n == 0 then [] else NameBlocks(records, sorted, n, NamesIn(WeekRows(sorted, n))))
  }

  function Blocks(records: seq<Record>): seq<Block> {
    var sorted := SortedRecords(records);
    WeekBlocks(records, sorted, Weeks(sorted))
  }

  function Details(rows: seq<Record>): (out: seq<OutRow>)
    ensures |out| == |rows| && forall i :: 0 <= i < |rows| ==> out[i] == Detail(rows[i])
  {
    seq(|rows|, i requires 0 <= i < |rows| => Detail(rows[i]))
  }

  function BlockRows(b: Block): seq<OutRow> {
    Details(b.rows) + [Subtotal(b.total, b.bonus)]
  }

  function Flatten(bs: seq<Block>): seq<OutRow> {
    if bs == [] then [] else Flatten(bs[..|bs| - 1]) + BlockRows(bs[|bs| - 1])
  }

  /** The rows `final_rows` holds at the end. */
  function Assemble(records: seq<Record>): seq<OutRow> {
    Flatten(Blocks(records))
  }

  lemma {:induction false} FlattenAppend(a: seq<Block>, b: seq<Block>)
    ensures Flatten(a + b) == Flatten(a) + Flatten(b)
    decreases |b|
  {
    if b == [] {
      assert a + b == a;
    } else {
      var n := |b| - 1;
      Ordering.LastOfConcat(a, b);
      FlattenAppend(a, b[..n]);
      var last := BlockRows(b[n]);
      assert Flatten(a + b) == Flatten(a + b[..n]) + last;
      assert Flatten(b) == Flatten(b[..n]) + last;
    }
  }

  /** `format_csv`'s nested loops: weeks ascending (skipping 0), names
      ascending, each name's rows then its subtotal row. */
  method FormatRows(records: seq<Record>) returns (out: seq<OutRow>)
    ensures out == Assemble(records)
  {
    var bonus := BuildBonusMap(records);
    out := AppendWeeks(records, bonus);
  }

  /** The loop over the sorted week numbers, given the bonus dictionary. */
  method AppendWeeks(records: seq<Record>, bonus: map<string, E.Eligibility>) returns (out: seq<OutRow>)
    requires forall r :: r in records ==> r.fundraiserId in bonus
    requires forall id :: id in bonus ==> bonus[id] == FundraiserBonus(records, id)
    ensures out == Assemble(records)
  {
    var sorted := SortedRecords(records);
    var weeks := Weeks(sorted);
    out := [];
    var w := 0;
    while w < |weeks|
      invariant 0 <= w <= |weeks|
      invariant out == Flatten(WeekBlocks(records, sorted, weeks[..w]))
    {
      WeekBlocksStep(records, sorted, weeks, w);
      if weeks[w] != 0 {
        out := AppendWeek(records, bonus, sorted, weeks[w], out);
      }
      w := w + 1;
    }
    assert weeks[..w] == weeks;
  }

  /** Taking one more week appends that week's blocks, or nothing for week
      key 0. */
  lemma WeekBlocksStep(records: seq<Record>, sorted: seq<Record>, weeks: seq<nat>, w: nat)
    requires w < |weeks|
    ensures weeks[w] == 0 ==>
      Flatten(WeekBlocks(records, sorted, weeks[..w + 1])) == Flatten(WeekBlocks(records, sorted, weeks[..w]))
    ensures weeks[w] != 0 ==>
      Flatten(WeekBlocks(records, sorted, weeks[..w + 1])) ==
      Flatten(WeekBlocks(records, sorted, weeks[..w])) +
      Flatten(NameBlocks(records, sorted, weeks[w], NamesIn(WeekRows(sorted, weeks[w]))))
  {
    var n := weeks[w];
    var prefix := weeks[..w + 1];
    assert prefix[..|prefix| - 1] == weeks[..w] && prefix[|prefix| - 1] == n;
    var done := WeekBlocks(records, sorted, weeks[..w]);
    if n != 0 {
      var added := NameBlocks(records, sorted, n, NamesIn(WeekRows(sorted, n)));
      assert WeekBlocks(records, sorted, prefix) == done + added;
      FlattenAppend(done, added);
    } else {
      assert WeekBlocks(records, sorted, prefix) == done + [];
      assert done + [] == done;
    }
  }

  /** The blocks of one week, appended to `out`. */
  method AppendWeek(records: seq<Record>, bonus: map<string, E.Eligibility>, sorted: seq<Record>, n: nat,
                    out: seq<OutRow>) returns (res: seq<OutRow>)
    requires sorted == SortedRecords(records)
    requires forall r :: r in records ==> r.fundraiserId in bonus
    requires forall id :: id in bonus ==> bonus[id] == FundraiserBonus(records, id)
    ensures res == out + Flatten(NameBlocks(records, sorted, n, NamesIn(WeekRows(sorted, n))))
  {
    var names := NamesIn(WeekRows(sorted, n));
    res := out;
    var j := 0;
    while j < |names|
      invariant 0 <= j <= |names|
      invariant res == out + Flatten(NameBlocks(records, sorted, n, names[..j]))
    {
      res := AppendName(records, bonus, sorted, n, names, j, out, res);
      j := j + 1;
    }
    assert names[..j] == names;
  }

  /** One name of the week: its rows, then its subtotal with the
      fundraiser's bonus looked up in the dictionary. */
  method AppendName(records: seq<Record>, bonus: map<string, E.Eligibility>, sorted: seq<Record>, n: nat,
                    names: seq<string>, j: nat, out: seq<OutRow>, res: seq<OutRow>) returns (next: seq<OutRow>)
    requires sorted == SortedRecords(records)
    requires forall r :: r in records ==> r.fundraiserId in bonus
    requires forall id :: id in bonus ==> bonus[id] == FundraiserBonus(records, id)
    requires names == NamesIn(WeekRows(sorted, n)) && j < |names|
    requires res == out + Flatten(NameBlocks(records, sorted, n, names[..j]))
    ensures next == out + Flatten(NameBlocks(records, sorted, n, names[..j + 1]))
  {
    var rows := NameRows(WeekRows(sorted, n), names[j]);
    FirstRowInLedger(records, n, names[j]);
    var fundraiserBonus := bonus[rows[0].fundraiserId];
    NameBlocksStep(records, sorted, n, names, j, out, fundraiserBonus);
    next := AppendBlock(res, rows, fundraiserBonus);
  }

  /** The block of a name of the week is non-empty and its first row is a
      record of the ledger. */
  lemma FirstRowInLedger(records: seq<Record>, n: nat, name: string)
    requires name in NamesIn(WeekRows(SortedRecords(records), n))
    ensures var rows := NameRows(WeekRows(SortedRecords(records), n), name);
      rows != [] && rows[0] in records
  {
    var kw := WeekRows(SortedRecords(records), n);
    NameRowsNonEmpty(kw, name);
    var rows := NameRows(kw, name);
    NameRowsMember(kw, name, rows[0]);
    WeekRowsMember(SortedRecords(records), n, rows[0]);
    SortedRecordsMember(records, rows[0]);
  }

  /** Appending the block of the next name extends the flattened rows by
      that name's details and its subtotal. */
  lemma NameBlocksStep(records: seq<Record>, sorted: seq<Record>, n: nat, names: seq<string>, j: nat,
                       out: seq<OutRow>, bonus: E.Eligibility)
    requires j < |names|
    requires var rows := NameRows(WeekRows(sorted, n), names[j]);
      rows != [] && bonus == FundraiserBonus(records, rows[0].fundraiserId)
    ensures var rows := NameRows(WeekRows(sorted, n), names[j]);
      out + Flatten(NameBlocks(records, sorted, n, names[..j + 1])) ==
      out + Flatten(NameBlocks(records, sorted, n, names[..j])) + Details(rows) + [Subtotal(PointsTotal(rows), bonus)]
  {
    var rows := NameRows(WeekRows(sorted, n), names[j]);
    var b := MakeBlock(records, sorted, n, names[j]);
    var before := NameBlocks(records, sorted, n, names[..j]);
    var bs := NameBlocks(records, sorted, n, names[..j + 1]);
    assert names[..j + 1][..j] == names[..j];
    assert bs == before + [b];
    assert bs[..|bs| - 1] == before;
    assert Flatten(bs) == Flatten(before) + BlockRows(b);
    assert BlockRows(b) == Details(rows) + [Subtotal(PointsTotal(rows), bonus)];
    ConcatAssociates(out, Flatten(before), Details(rows), [Subtotal(PointsTotal(rows), bonus)]);
  }

  lemma ConcatAssociates<T>(a: seq<T>, b: seq<T>, c: seq<T>, d: seq<T>)
    ensures a + (b + (c + d)) == a + b + c + d
  {
  }

  /** One fundraiser's detail rows, then its subtotal row. */
  method AppendBlock(out: seq<OutRow>, rows: seq<Record>, bonus: E.Eligibility) returns (res: seq<OutRow>)
    ensures res == out + Details(rows) + [Subtotal(PointsTotal(rows), bonus)]
  {
    res := out;
    var k := 0;
    while k < |rows|
      invariant 0 <= k <= |rows|
      invariant res == out + Details(rows[..k])
    {
      assert Details(rows[..k + 1]) == Details(rows[..k]) + [Detail(rows[k])];
      res := res + [Detail(rows[k])];
      k := k + 1;
    }
    assert rows[..k] == rows;
    var total := PointsTotal(rows);
    res := res + [Subtotal(total, bonus)];
  }

  // ---------------------------------------------------------------------
  // What the assembled report is

  /** Every block belongs to a non-zero week of the ledger and a name of
      that week; it is the block built for that week and name. */
  lemma {:induction false} WeekBlocksMember(records: seq<Record>, sorted: seq<Record>, weeks: seq<nat>, b: Block)
    requires b in WeekBlocks(records, sorted, weeks)
    ensures b.week in weeks && b.week != 0
    ensures b.name in NamesIn(WeekRows(sorted, b.week))
    ensures b == MakeBlock(records, sorted, b.week, b.name)
  {
    var n := weeks[|weeks| - 1];
    var init := weeks[..|weeks| - 1];
    if b in WeekBlocks(records, sorted, init) {
      WeekBlocksMember(records, sorted, init, b);
    } else {
      var names := NamesIn(WeekRows(sorted, n));
      var k :| 0 <= k < |names| && NameBlocks(records, sorted, n, names)[k] == b;
      NameBlocksAt(records, sorted, n, names, k);
    }
  }

  /** Each block of the report: a non-zero week, a non-empty run of records
      of the ledger that all carry the block's name and are selected by its
      week, the subtotal of those rows, and the bonus of the first row's
      fundraiser over the whole ledger. */
  lemma BlockFacts(records: seq<Record>, b: Block)
    requires b in Blocks(records)
    ensures b.week != 0 && b.rows != []
    ensures forall r :: r in b.rows ==> r in records && r.name == Some(b.name) && InWeek(r, b.week)
    ensures b.total == PointsTotal(b.rows)
    ensures b.bonus == FundraiserBonus(records, b.rows[0].fundraiserId)
  {
    var sorted := SortedRecords(records);
    WeekBlocksMember(records, sorted, Weeks(sorted), b);
    NameRowsNonEmpty(WeekRows(sorted, b.week), b.name);
    forall r | r in b.rows
      ensures r in records && r.name == Some(b.name) && InWeek(r, b.week)
    {
      NameRowsMember(WeekRows(sorted, b.week), b.name, r);
      WeekRowsMember(sorted, b.week, r);
      SortedRecordsMember(records, r);
    }
  }

  predicate KeyLess(a: Block, b: Block) {
    a.week < b.week || (a.week == b.week && Less(a.name, b.name))
  }

  predicate OrderedBlocks(bs: seq<Block>) {
    forall i, j :: 0 <= i < j < |bs| ==> KeyLess(bs[i], bs[j])
  }

  lemma {:induction false} WeekBlocksOrdered(records: seq<Record>, sorted: seq<Record>, weeks: seq<nat>)
    requires Increasing(NatLt, weeks)
    ensures OrderedBlocks(WeekBlocks(records, sorted, weeks))
  {
    if weeks != [] {
      var n := weeks[|weeks| - 1];
      var init := weeks[..|weeks| - 1];
      assert Increasing(NatLt, init);
      WeekBlocksOrdered(records, sorted, init);
      if n != 0 {
        var a := WeekBlocks(records, sorted, init);
        var names := NamesIn(WeekRows(sorted, n));
        StringLessIsStrictTotalOrder();
        SortedUniqueSpec(Less, PresentNames(WeekRows(sorted, n)));
        NameBlocksOrdered(records, sorted, n, names);
        forall i | 0 <= i < |a| ensures a[i].week < n {
          WeekBlocksMember(records, sorted, init, a[i]);
          var k :| 0 <= k < |init| && init[k] == a[i].week;
          assert NatLt(weeks[k], weeks[|weeks| - 1]);
        }
        OrderedAppend(a, NameBlocks(records, sorted, n, names), n);
      }
    }
  }

  /** The blocks of one week are ordered by name when the names are. */
  lemma NameBlocksOrdered(records: seq<Record>, sorted: seq<Record>, n: nat, names: seq<string>)
    requires Increasing(Less, names)
    ensures OrderedBlocks(NameBlocks(records, sorted, n, names))
    ensures forall k :: 0 <= k < |names| ==> NameBlocks(records, sorted, n, names)[k].week == n
  {
    var c := NameBlocks(records, sorted, n, names);
    forall k | 0 <= k < |names| ensures c[k].week == n && c[k].name == names[k] {
      NameBlocksAt(records, sorted, n, names, k);
    }
    forall i, j | 0 <= i < j < |c| ensures KeyLess(c[i], c[j]) {
      assert Less(names[i], names[j]);
    }
  }

  /** Blocks of earlier weeks followed by ordered blocks of week `n` stay
      ordered. */
  lemma OrderedAppend(a: seq<Block>, c: seq<Block>, n: nat)
    requires OrderedBlocks(a) && OrderedBlocks(c)
    requires forall i :: 0 <= i < |a| ==> a[i].week < n
    requires forall j :: 0 <= j < |c| ==> c[j].week == n
    ensures OrderedBlocks(a + c)
  {
    var bs := a + c;
    forall i, j | 0 <= i < j < |bs| ensures KeyLess(bs[i], bs[j]) {
      if j < |a| {
        assert KeyLess(a[i], a[j]);
      } else if i >= |a| {
        assert KeyLess(c[i - |a|], c[j - |a|]);
      } else {
        assert bs[i].week < n && bs[j].week == n;
      }
    }
  }

  /** The report's blocks run by week ascending, then name ascending, each
      (week, name) pair at most once. */
  lemma BlocksAreOrdered(records: seq<Record>)
    ensures OrderedBlocks(Blocks(records))
  {
    var sorted := SortedRecords(records);
    NatLtIsStrictTotalOrder();
    SortedUniqueSpec(NatLt, WeekNums(sorted));
    WeekBlocksOrdered(records, sorted, Weeks(sorted));
  }

  lemma {:induction false} NameBlocksHave(records: seq<Record>, sorted: seq<Record>, week: nat, names: seq<string>, name: string)
    requires name in names
    ensures MakeBlock(records, sorted, week, name) in NameBlocks(records, sorted, week, names)
  {
    var k :| 0 <= k < |names| && names[k] == name;
    NameBlocksAt(records, sorted, week, names, k);
  }

  lemma {:induction false} WeekBlocksHave(records: seq<Record>, sorted: seq<Record>, weeks: seq<nat>, n: nat, b: Block)
    requires n in weeks && n != 0 && b in NameBlocks(records, sorted, n, NamesIn(WeekRows(sorted, n)))
    ensures b in WeekBlocks(records, sorted, weeks)
  {
    var init := weeks[..|weeks| - 1];
    if weeks[|weeks| - 1] != n {
      assert n in init;
      WeekBlocksHave(records, sorted, init, n, b);
    }
  }

  /** A named record the selection of week `n` takes is listed in the block
      of its name for week `n`, provided some record of the ledger has week
      key `n`. */
  lemma ListedUnderWeek(records: seq<Record>, r: Record, n: nat)
    requires r in records && r.name.Some? && n != 0 && InWeek(r, n)
    requires exists q :: q in records && q.weekNum == n
    ensures exists b :: b in Blocks(records) && b.week == n && b.name == r.name.value && r in b.rows
  {
    var sorted := SortedRecords(records);
    NatLtIsStrictTotalOrder();
    SortedUniqueSpec(NatLt, WeekNums(sorted));
    var q :| q in records && q.weekNum == n;
    SortedRecordsMember(records, q);
    WeekNumsMember(sorted, q);
    assert n in Weeks(sorted);
    var kw := WeekRows(sorted, n);
    SortedRecordsMember(records, r);
    WeekRowsMember(sorted, n, r);
    StringLessIsStrictTotalOrder();
    SortedUniqueSpec(Less, PresentNames(kw));
    PresentNamesHas(kw, r);
    assert r.name.value in NamesIn(kw);
    var b := MakeBlock(records, sorted, n, r.name.value);
    NameBlocksHave(records, sorted, n, NamesIn(kw), r.name.value);
    WeekBlocksHave(records, sorted, Weeks(sorted), n, b);
    NameRowsMember(kw, r.name.value, r);
  }

  /** Every named record whose own week key is non-zero and whose label the
      selection of that key takes appears in the report. */
  lemma NamedRecordsAreReported(records: seq<Record>, r: Record)
    requires r in records && r.name.Some? && r.weekNum != 0 && InWeek(r, r.weekNum)
    ensures exists b :: b in Blocks(records) && b.week == r.weekNum && b.name == r.name.value && r in b.rows
  {
    ListedUnderWeek(records, r, r.weekNum);
  }

  /** "KW1" also matches "KW10": a record labelled "KW10" is listed under
      week 1 as well as under week 10 when the ledger has a week-1 record. */
  lemma KW10AlsoListedUnderWeek1(records: seq<Record>, r: Record)
    requires r in records && r.name.Some? && r.week == Some("KW10") && r.weekNum == 10
    requires exists q :: q in records && q.weekNum == 1
    ensures exists b :: b in Blocks(records) && b.week == 1 && r in b.rows
    ensures exists b :: b in Blocks(records) && b.week == 10 && r in b.rows
  {
    assert NatToString(1) == "1";
    assert NatToString(10) == "10";
    assert ("KW10")[0..3] == "KW1";
    ContainsAt("KW10", "KW1", 0);
    ContainsAt("KW10", "KW10", 0);
    ListedUnderWeek(records, r, 1);
    ListedUnderWeek(records, r, 10);
  }

  /** Above week 12 the label must be exactly "{n}/2025": a "KW18" record is
      never selected for week 18, its own week key. */
  lemma KW18NotSelected(r: Record)
    requires r.week == Some("KW18")
    ensures r.weekNum == 18 ==> !InWeek(r, 18)
  {
    assert NatToString(18) == "18";
    assert NatToString(18) + "/2025" != "KW18";
  }

  /** "1/2025" is contained in "11/2025": a record labelled "11/2025" is
      selected for week 1 as well. */
  lemma Label11Of2025SelectedForWeek1(r: Record)
    requires r.week == Some("11/2025")
    ensures InWeek(r, 1) && InWeek(r, 11)
  {
    assert NatToString(1) == "1";
    assert NatToString(11) == "11";
    assert ("11/2025")[1..7] == "1/2025";
    ContainsAt("11/2025", "1/2025", 1);
    ContainsAt("11/2025", "11/2025", 0);
  }

  // ---------------------------------------------------------------------
  // Shape of the rows

  function CountSubtotals(out: seq<OutRow>): nat {
    if out == [] then 0 else CountSubtotals(out[..|out| - 1]) + (if out[|out| - 1].Subtotal? then 1 else 0)
  }

  function DetailCount(bs: seq<Block>): nat {
    if bs == [] then 0 else DetailCount(bs[..|bs| - 1]) + |bs[|bs| - 1].rows|
  }

  lemma {:induction false} CountSubtotalsSplit(a: seq<OutRow>, b: seq<OutRow>)
    ensures CountSubtotals(a + b) == CountSubtotals(a) + CountSubtotals(b)
    decreases |b|
  {
    if b == [] {
      assert a + b == a;
    } else {
      assert (a + b)[..|a + b| - 1] == a + b[..|b| - 1];
      CountSubtotalsSplit(a, b[..|b| - 1]);
    }
  }

  lemma {:induction false} DetailsHaveNoSubtotal(rows: seq<Record>)
    ensures CountSubtotals(Details(rows)) == 0
  {
    if rows != [] {
      assert Details(rows)[..|rows| - 1] == Details(rows[..|rows| - 1]);
      DetailsHaveNoSubtotal(rows[..|rows| - 1]);
    }
  }

  /** A block's rows are its detail rows followed by exactly one subtotal. */
  lemma BlockShape(b: Block)
    ensures |BlockRows(b)| == |b.rows| + 1
    ensures forall i :: 0 <= i < |b.rows| ==> BlockRows(b)[i] == Detail(b.rows[i])
    ensures BlockRows(b)[|b.rows|] == Subtotal(b.total, b.bonus)
    ensures CountSubtotals(BlockRows(b)) == 1
  {
    DetailsHaveNoSubtotal(b.rows);
    CountSubtotalsSplit(Details(b.rows), [Subtotal(b.total, b.bonus)]);
    assert [Subtotal(b.total, b.bonus)][..0] == [];
  }

  /** The flattened rows are the detail rows plus one subtotal per block. */
  lemma {:induction false} FlattenCounts(bs: seq<Block>)
    ensures CountSubtotals(Flatten(bs)) == |bs|
    ensures |Flatten(bs)| == DetailCount(bs) + |bs|
  {
    if bs != [] {
      var init := bs[..|bs| - 1];
      FlattenCounts(init);
      BlockShape(bs[|bs| - 1]);
      CountSubtotalsSplit(Flatten(init), BlockRows(bs[|bs| - 1]));
    }
  }

  lemma {:induction false} FlattenDetailsFrom(bs: seq<Block>, r: Record)
    requires Detail(r) in Flatten(bs)
    ensures exists b :: b in bs && r in b.rows
  {
    var init := bs[..|bs| - 1];
    var last := bs[|bs| - 1];
    if Detail(r) in Flatten(init) {
      FlattenDetailsFrom(init, r);
      var b :| b in init && r in b.rows;
      assert b in bs;
    } else {
      var i :| 0 <= i < |BlockRows(last)| && BlockRows(last)[i] == Detail(r);
      assert i < |last.rows|;
      assert last.rows[i] == r;
    }
  }

  /** Every detail row of the report is a named record of the ledger,
      listed under a non-zero week whose selection takes it. */
  lemma ReportedDetailsAreNamedRecords(records: seq<Record>, r: Record)
    requires Detail(r) in Assemble(records)
    ensures r in records && r.name.Some?
    ensures exists n: nat :: n != 0 && InWeek(r, n)
  {
    FlattenDetailsFrom(Blocks(records), r);
    var b :| b in Blocks(records) && r in b.rows;
    BlockFacts(records, b);
  }
}
