/** The ledger normaliser of csv_formatter.py (`format_csv`, the steps from
    dropping summary rows to scoring every donation): raw rows in file order
    become records with a padded fundraiser id, forward-filled header
    columns, a numeric week key and a score. */
module Ledger {
  import opened Wrappers
  import opened Text
  import Points

  /** One row of the raw ledger as pandas holds it after reading the file.
      A missing cell is `None`. `fundraiserId` is the text `astype(str)`
      gives for a present value (for a float column, "4.0"); age and amount
      are the numbers `int(...)` and `float(...)` give; a missing status is
      the empty string (every test on a status treats the two alike). */
  datatype RawRow = RawRow(
    fundraiserId: Option<string>,
    name: Option<string>,
    week: Option<string>,
    billingGroup: Option<string>,
    refId: Option<string>,
    age: int,
    interval: string,
    amount: real,
    status: string)

  /** A normalised donation record: the columns of the formatted ledger plus
      the derived week key and the score in half-points. */
  datatype Record = Record(
    fundraiserId: string,
    name: Option<string>,
    week: Option<string>,
    billingGroup: Option<string>,
    refId: string,
    age: int,
    interval: string,
    amount: real,
    status: string,
    weekNum: nat,
    points: Points.HalfPoints)

  // ---------------------------------------------------------------------
  // Dropping rows

  /** `str.contains('Subtotal|Total', case=False, na=False)` on the name. */
  predicate IsSummaryRow(r: RawRow) {
    r.name.Some? &&
    (Contains(Lower(r.name.value), "subtotal") || Contains(Lower(r.name.value), "total"))
  }

  /** The alternation reduces to one test, since "subtotal" contains "total". */
  lemma SummaryRowIffTotal(r: RawRow)
    ensures IsSummaryRow(r) <==> r.name.Some? && Contains(Lower(r.name.value), "total")
  {
    if r.name.Some? && Contains(Lower(r.name.value), "subtotal") {
      var l := Lower(r.name.value);
      var i := ContainsWitness(l, "subtotal");
      assert l[i + 3..i + 8] == l[i..i + 8][3..8];
      ContainsAt(l, "total", i + 3);
    }
  }

  function DropSummaryRows(rows: seq<RawRow>): (kept: seq<RawRow>)
    ensures forall r :: r in kept <==> r in rows && !IsSummaryRow(r)
  {
    if rows == [] then []
    else (if IsSummaryRow(rows[0]) then [] else [rows[0]]) + DropSummaryRows(rows[1..])
  }

  /** `notna()` and `!= ''` on the reference id. */
  predicate HasRefId(r: RawRow) {
    r.refId.Some? && r.refId.value != ""
  }

  function DropMissingRefIds(rows: seq<RawRow>): (kept: seq<RawRow>)
    ensures forall r :: r in kept <==> r in rows && HasRefId(r)
  {
    if rows == [] then []
    else (if HasRefId(rows[0]) then [rows[0]] else []) + DropMissingRefIds(rows[1..])
  }

  /** The rows the forward fill runs on. */
  function Surviving(raw: seq<RawRow>): (kept: seq<RawRow>)
    ensures forall r :: r in kept <==> r in raw && !IsSummaryRow(r) && HasRefId(r)
  {
    DropMissingRefIds(DropSummaryRows(raw))
  }

  /** The summary filter works row by row: it distributes over
      concatenation, so the kept rows keep their file order and every
      occurrence of a kept row stays. */
  lemma {:induction false} DropSummaryRowsSplit(a: seq<RawRow>, b: seq<RawRow>)
    ensures DropSummaryRows(a + b) == DropSummaryRows(a) + DropSummaryRows(b)
  {
    if a != [] {
      assert (a + b)[0] == a[0];
      assert (a + b)[1..] == a[1..] + b;
      DropSummaryRowsSplit(a[1..], b);
    } else {
      assert a + b == b;
    }
  }

  /** The reference-id filter distributes over concatenation as well. */
  lemma {:induction false} DropMissingRefIdsSplit(a: seq<RawRow>, b: seq<RawRow>)
    ensures DropMissingRefIds(a + b) == DropMissingRefIds(a) + DropMissingRefIds(b)
  {
    if a != [] {
      assert (a + b)[0] == a[0];
      assert (a + b)[1..] == a[1..] + b;
      DropMissingRefIdsSplit(a[1..], b);
    } else {
      assert a + b == b;
    }
  }

  /** One row survives both filters exactly when it passes both. */
  lemma SurvivingOne(r: RawRow)
    ensures Surviving([r]) == if !IsSummaryRow(r) && HasRefId(r) then [r] else []
  {
    assert [r][1..] == [];
    var d := DropSummaryRows([r]);
    assert d == (if IsSummaryRow(r) then [] else [r]) + DropSummaryRows([]);
    if d == [r] {
      assert DropMissingRefIds(d) == (if HasRefId(r) then [r] else []) + DropMissingRefIds([]);
    }
  }

  /** The surviving rows of a concatenation are the surviving rows of each
      part, in order. With SurvivingOne this fixes the surviving rows as the
      order-preserving subsequence of the rows that pass both filters. */
  lemma SurvivingSplit(a: seq<RawRow>, b: seq<RawRow>)
    ensures Surviving(a + b) == Surviving(a) + Surviving(b)
  {
    DropSummaryRowsSplit(a, b);
    DropMissingRefIdsSplit(DropSummaryRows(a), DropSummaryRows(b));
  }

  // ---------------------------------------------------------------------
  // Forward fill

  /** `Series.ffill()`: every missing value takes the last present value
      above it; leading missing values stay missing. */
  function FillForward<T>(xs: seq<Option<T>>): (r: seq<Option<T>>)
    ensures |r| == |xs|
  {
    if xs == [] then []
    else
      var init := FillForward(xs[..|xs| - 1]);
      var x := xs[|xs| - 1];
      init + [if x.Some? || init == [] then x else init[|init| - 1]]
  }

  /** The reference definition: the nearest present value at or above `i`. */
  function NearestAbove<T>(xs: seq<Option<T>>, i: nat): Option<T>
    requires i < |xs|
  {
    if xs[i].Some? then xs[i]
    else if i == 0 then None
    else NearestAbove(xs, i - 1)
  }

  lemma {:induction false} NearestAbovePrefix<T>(xs: seq<Option<T>>, n: nat, i: nat)
    requires i < n <= |xs|
    ensures NearestAbove(xs[..n], i) == NearestAbove(xs, i)
  {
    if xs[i].None? && i > 0 {
      NearestAbovePrefix(xs, n, i - 1);
    }
  }

  /** The fill computes the nearest present value at or above each row. */
  lemma {:induction false} FillForwardAt<T>(xs: seq<Option<T>>, i: nat)
    requires i < |xs|
    ensures FillForward(xs)[i] == NearestAbove(xs, i)
    decreases |xs|
  {
    var n := |xs| - 1;
    var init := xs[..n];
    if i < n {
      FillForwardAt(init, i);
      NearestAbovePrefix(xs, n, i);
    } else if xs[n].None? && n > 0 {
      FillForwardAt(init, n - 1);
      NearestAbovePrefix(xs, n, n - 1);
    }
  }

  /** The nearest value above is the value of some row at or above `i`, with
      only missing values in between; it is missing exactly when every row
      up to `i` is. */
  lemma {:induction false} NearestAboveSpec<T>(xs: seq<Option<T>>, i: nat, v: T)
    requires i < |xs|
    ensures NearestAbove(xs, i) == Some(v) <==>
            exists j :: 0 <= j <= i && xs[j] == Some(v) && forall k :: j < k <= i ==> xs[k].None?
    ensures NearestAbove(xs, i).None? <==> forall j :: 0 <= j <= i ==> xs[j].None?
  {
    if xs[i].None? && i > 0 {
      NearestAboveSpec(xs, i - 1, v);
      if exists j :: 0 <= j <= i && xs[j] == Some(v) && forall k :: j < k <= i ==> xs[k].None? {
        var j :| 0 <= j <= i && xs[j] == Some(v) && forall k :: j < k <= i ==> xs[k].None?;
        assert j <= i - 1;
      }
    }
  }

  /** Filling twice is filling once. */
  lemma FillForwardIdempotent<T>(xs: seq<Option<T>>)
    ensures FillForward(FillForward(xs)) == FillForward(xs)
  {
    var f := FillForward(xs);
    forall i | 0 <= i < |xs| ensures FillForward(f)[i] == f[i] {
      FillForwardAt(f, i);
      FillForwardAt(xs, i);
      NearestAboveOfFilled(xs, i);
    }
  }

  lemma {:induction false} NearestAboveOfFilled<T>(xs: seq<Option<T>>, i: nat)
    requires i < |xs|
    ensures NearestAbove(FillForward(xs), i) == NearestAbove(xs, i)
  {
    var f := FillForward(xs);
    FillForwardAt(xs, i);
    if f[i].None? && i > 0 {
      NearestAboveOfFilled(xs, i - 1);
    }
  }

  /** A value the fill writes was present somewhere in the column. */
  lemma FillForwardFromColumn<T>(xs: seq<Option<T>>, i: nat)
    requires i < |xs| && FillForward(xs)[i].Some?
    ensures FillForward(xs)[i] in xs
  {
    FillForwardAt(xs, i);
    var v := FillForward(xs)[i].value;
    NearestAboveSpec(xs, i, v);
  }

  /** `sparse` is the fully populated column `full` written the way the
      ledger writes a header: on a group's first row only, with the rows
      below it left empty. */
  ghost predicate HeaderOnlyOnFirstRow<T>(sparse: seq<Option<T>>, full: seq<Option<T>>) {
    |sparse| == |full| && (|full| > 0 ==> sparse[0] == full[0]) &&
    (forall k :: 0 <= k < |full| ==> full[k].Some?) &&
    (forall k :: 0 < k < |full| ==> sparse[k] == full[k] || (full[k] == full[k - 1] && sparse[k].None?))
  }

  /** Such a column fills to the fully populated one. */
  lemma FillRestoresSparseColumn<T>(sparse: seq<Option<T>>, full: seq<Option<T>>)
    requires HeaderOnlyOnFirstRow(sparse, full)
    ensures FillForward(sparse) == full
  {
    forall i | 0 <= i < |full| ensures FillForward(sparse)[i] == full[i] {
      FillForwardAt(sparse, i);
      SparseNearest(sparse, full, i);
    }
  }

  lemma {:induction false} SparseNearest<T>(sparse: seq<Option<T>>, full: seq<Option<T>>, i: nat)
    requires HeaderOnlyOnFirstRow(sparse, full) && i < |full|
    ensures NearestAbove(sparse, i) == full[i]
  {
    if i > 0 {
      assert sparse[i] == full[i] || (full[i] == full[i - 1] && sparse[i].None?);
      if sparse[i].None? {
        SparseNearest(sparse, full, i - 1);
      }
    }
  }

  function IdColumn(rows: seq<RawRow>): (c: seq<Option<string>>)
    ensures |c| == |rows| && forall i :: 0 <= i < |rows| ==> c[i] == rows[i].fundraiserId
  {
    seq(|rows|, i requires 0 <= i < |rows| => rows[i].fundraiserId)
  }

  function NameColumn(rows: seq<RawRow>): (c: seq<Option<string>>)
    ensures |c| == |rows| && forall i :: 0 <= i < |rows| ==> c[i] == rows[i].name
  {
    seq(|rows|, i requires 0 <= i < |rows| => rows[i].name)
  }

  function WeekColumn(rows: seq<RawRow>): (c: seq<Option<string>>)
    ensures |c| == |rows| && forall i :: 0 <= i < |rows| ==> c[i] == rows[i].week
  {
    seq(|rows|, i requires 0 <= i < |rows| => rows[i].week)
  }

  function GroupColumn(rows: seq<RawRow>): (c: seq<Option<string>>)
    ensures |c| == |rows| && forall i :: 0 <= i < |rows| ==> c[i] == rows[i].billingGroup
  {
    seq(|rows|, i requires 0 <= i < |rows| => rows[i].billingGroup)
  }

  /** The four `ffill()` calls: fundraiser id, name, week and billing group
      take the nearest present value at or above; the other cells stay. */
  function ForwardFillRows(rows: seq<RawRow>): (r: seq<RawRow>)
    ensures |r| == |rows|
    ensures forall i :: 0 <= i < |rows| ==>
      r[i].fundraiserId == NearestAbove(IdColumn(rows), i) &&
      r[i].name == NearestAbove(NameColumn(rows), i) &&
      r[i].week == NearestAbove(WeekColumn(rows), i) &&
      r[i].billingGroup == NearestAbove(GroupColumn(rows), i) &&
      r[i].refId == rows[i].refId && r[i].age == rows[i].age &&
      r[i].interval == rows[i].interval && r[i].amount == rows[i].amount &&
      r[i].status == rows[i].status
  {
    var ids := FillForward(IdColumn(rows));
    var names := FillForward(NameColumn(rows));
    var weeks := FillForward(WeekColumn(rows));
    var groups := FillForward(GroupColumn(rows));
    forall i | 0 <= i < |rows|
      ensures ids[i] == NearestAbove(IdColumn(rows), i) && names[i] == NearestAbove(NameColumn(rows), i)
      ensures weeks[i] == NearestAbove(WeekColumn(rows), i) && groups[i] == NearestAbove(GroupColumn(rows), i)
    {
      FillForwardAt(IdColumn(rows), i);
      FillForwardAt(NameColumn(rows), i);
      FillForwardAt(WeekColumn(rows), i);
      FillForwardAt(GroupColumn(rows), i);
    }
    seq(|rows|, i requires 0 <= i < |rows| =>
      rows[i].(fundraiserId := ids[i], name := names[i], week := weeks[i], billingGroup := groups[i]))
  }

  // ---------------------------------------------------------------------
  // Fundraiser id and week key

  /** `astype(str)`: a missing id becomes the text "nan". */
  function IdText(id: Option<string>): string {
    match id
    case Some(s) => s
    case None => "nan"
  }

  /** `astype(str).str.replace('.0', '').str.zfill(5)` */
  function PadId(id: Option<string>): (r: string)
    ensures |r| >= 5
  {
    ZFill(ReplaceAll(IdText(id), ".0", ""), 5)
  }

  /** An id without a '.' is only zero-filled. */
  lemma PadIdWithoutDot(s: string)
    requires '.' !in s
    ensures PadId(Some(s)) == ZFill(s, 5)
  {
    if Contains(s, ".0") {
      ContainedChars(s, ".0", '.');
    }
    ReplaceAllAbsent(s, ".0", "");
  }

  /** The float artifact ".0" is dropped before padding; a missing id pads
      to "00nan". */
  lemma PadIdExamples()
    ensures PadId(Some("4.0")) == "00004"
    ensures PadId(None) == "00nan"
  {
    assert ReplaceAll("4.0", ".0", "") == "4";
    assert ReplaceAll("nan", ".0", "") == "nan";
  }

  /** Ids of five or more characters (and no '.') are kept as they are. */
  lemma PadIdLongIds(s: string)
    requires '.' !in s && |s| >= 5
    ensures PadId(Some(s)) == s
  {
    PadIdWithoutDot(s);
  }

  /** `str.extract(r'(\d+)').fillna(0).astype(int)`: the first digit run of
      the label, or 0 when there is none or the label is missing. */
  function WeekKey(week: Option<string>): nat {
    match week
    case None => 0
    case Some(s) =>
      var ds := FirstDigitRun(s);
      if ds == [] then 0 else DigitsValue(ds)
  }

  lemma {:induction false} FirstDigitRunOf(prefix: string, ds: string, rest: string)
    requires forall i :: 0 <= i < |prefix| ==> !IsDigit(prefix[i])
    requires ds != [] && AllDigits(ds) && (rest == [] || !IsDigit(rest[0]))
    ensures FirstDigitRun(prefix + ds + rest) == ds
  {
    if prefix != [] {
      assert (prefix + ds + rest)[1..] == prefix[1..] + ds + rest;
      FirstDigitRunOf(prefix[1..], ds, rest);
    } else {
      assert prefix + ds + rest == ds + rest;
      TakeDigitsOf(ds, rest);
    }
  }

  /** A label of the form text, week number, text gives that week number:
      "KW18" and "18/2025" both give 18. */
  lemma WeekKeyOfLabel(prefix: string, n: nat, rest: string)
    requires forall i :: 0 <= i < |prefix| ==> !IsDigit(prefix[i])
    requires rest == [] || !IsDigit(rest[0])
    ensures WeekKey(Some(prefix + NatToString(n) + rest)) == n
  {
    FirstDigitRunOf(prefix, NatToString(n), rest);
  }

  /** A label without any digit, and a missing label, give week 0. */
  lemma WeekKeyWithoutDigits(s: string)
    requires forall i :: 0 <= i < |s| ==> !IsDigit(s[i])
    ensures WeekKey(Some(s)) == 0 && WeekKey(None) == 0
  {
  }

  // ---------------------------------------------------------------------
  // The whole normaliser

  function MakeRecord(r: RawRow, points: Points.HalfPoints): Record
    requires HasRefId(r)
  {
    Record(PadId(r.fundraiserId), r.name, r.week, r.billingGroup, r.refId.value,
           r.age, r.interval, r.amount, r.status, WeekKey(r.week), points)
  }

  /** Drop summary rows and rows without a reference id, forward-fill the
      header columns over what is left, pad the id, derive the week key and
      score every donation. */
  function Normalise(raw: seq<RawRow>): (records: seq<Record>)
    ensures |records| == |Surviving(raw)|
  {
    var filled := ForwardFillRows(Surviving(raw));
    seq(|filled|, i requires 0 <= i < |filled| =>
      assert filled[i].refId == Surviving(raw)[i].refId && Surviving(raw)[i] in Surviving(raw);
      MakeRecord(filled[i], Points.CalculatePoints(filled[i].age, filled[i].interval, filled[i].amount)))
  }

  /** The i-th record is scored from the i-th filled row. */
  lemma NormaliseAt(raw: seq<RawRow>, i: nat)
    requires i < |ForwardFillRows(Surviving(raw))|
    ensures HasRefId(ForwardFillRows(Surviving(raw))[i])
    ensures var r := ForwardFillRows(Surviving(raw))[i];
      Normalise(raw)[i] == MakeRecord(r, Points.CalculatePoints(r.age, r.interval, r.amount))
  {
    var kept := Surviving(raw);
    assert ForwardFillRows(kept)[i].refId == kept[i].refId && kept[i] in kept;
  }

  /** Each normalised record: its reference id is present and non-empty; id,
      name, week and billing group are the nearest present values at or above
      it among the surviving rows; the id is padded, the week key and the
      score derived from the filled values. */
  lemma NormaliseSpec(raw: seq<RawRow>, i: nat)
    requires i < |Normalise(raw)|
    ensures var kept := Surviving(raw); var rec := Normalise(raw)[i];
      Some(rec.refId) == kept[i].refId && rec.refId != "" &&
      rec.fundraiserId == PadId(NearestAbove(IdColumn(kept), i)) &&
      rec.name == NearestAbove(NameColumn(kept), i) &&
      rec.week == NearestAbove(WeekColumn(kept), i) &&
      rec.billingGroup == NearestAbove(GroupColumn(kept), i) &&
      rec.weekNum == WeekKey(rec.week) &&
      rec.status == kept[i].status &&
      rec.points == Points.CalculatePoints(kept[i].age, kept[i].interval, kept[i].amount)
  {
    var kept := Surviving(raw);
    assert kept[i] in kept;
  }

  /** After normalisation no name mentions "total" or "subtotal" in any
      case: the fill only copies names of rows that survived the filter. */
  lemma NormaliseHasNoSummaryNames(raw: seq<RawRow>, i: nat)
    requires i < |Normalise(raw)| && Normalise(raw)[i].name.Some?
    ensures !Contains(Lower(Normalise(raw)[i].name.value), "total")
    ensures !Contains(Lower(Normalise(raw)[i].name.value), "subtotal")
  {
    var kept := Surviving(raw);
    NormaliseSpec(raw, i);
    var names := NameColumn(kept);
    FillForwardAt(names, i);
    FillForwardFromColumn(names, i);
    var j :| 0 <= j < |names| && names[j] == Normalise(raw)[i].name;
    assert kept[j] in kept;
    SummaryRowIffTotal(kept[j]);
  }
}
