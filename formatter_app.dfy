/** The copy of the pipeline on `CSVFormatterApp` in csv_formatter_gui.py:
    its scoring and eligibility methods, its `format_csv` (normaliser,
    bonus dictionary, block assembly), the cells it writes for every
    assembled row and the row count it returns. Each step is proved equal
    to the script version of csv_formatter.py. */
module FormatterApp {
  import opened Wrappers
  import opened Text
  import E = Eligibility
  import Points
  import opened Ledger
  import opened Report

  // ---------------------------------------------------------------------
  // The two rules

  /** `CSVFormatterApp.calculate_points`, statement by statement: a running
      `base` value set by the bracket and interval, then the 40+ increment. */
  method CalculatePoints(age: int, interval: string, amount: real) returns (p: Points.HalfPoints)
    ensures p == Points.CalculatePoints(age, interval, amount)
  {
    if age < 25 {
      return 1;
    }
    if age < 30 {
      if Lower(interval) == "monthly" {
        return 1;
      }
      return 2;
    }
    var base: Points.HalfPoints := 0;
    if amount >= 360.0 {
      if Lower(interval) == "yearly" {
        base := 10;
      } else if Contains(Lower(interval), "half") {
        base := 8;
      } else {
        base := 6;
      }
    } else if amount >= 240.0 {
      if Lower(interval) == "yearly" {
        base := 8;
      } else if Contains(Lower(interval), "half") {
        base := 6;
      } else {
        base := 4;
      }
    } else if amount >= 180.0 {
      if Lower(interval) == "yearly" {
        base := 6;
      } else if Contains(Lower(interval), "half") {
        base := 5;
      } else {
        base := 3;
      }
    } else if amount >= 120.0 {
      if Lower(interval) == "yearly" {
        base := 4;
      } else if Contains(Lower(interval), "half") {
        base := 3;
      } else {
        base := 2;
      }
    } else {
      base := 2;
    }
    if age >= 40 {
      base := base + 2;
    }
    return base;
  }

  /** `CSVFormatterApp.calculate_bonus_eligibility` over a fundraiser's
      statuses: the same counts and the same 70% test as the script. */
  method CalculateBonusEligibility(statuses: seq<string>) returns (e: E.Eligibility)
    ensures e == E.CalculateBonusEligibility(statuses)
    ensures E.Relevant(statuses) == [] ==> e == E.NotEligible
  {
    var relevant := E.Relevant(statuses);
    var total := |relevant|;
    var approved := |E.Approved(relevant)|;
    if total == 0 {
      return E.NotEligible;
    }
    if 10 * approved >= 7 * total {
      e := E.Eligible;
    } else {
      e := E.NotEligible;
    }
  }

  // ---------------------------------------------------------------------
  // format_csv

  /** The normalising steps of the method: the two filters, the four
      forward fills, then one score per row through `calculate_points`. */
  method Normalise(raw: seq<RawRow>) returns (records: seq<Record>)
    ensures records == Ledger.Normalise(raw)
  {
    var df := DropSummaryRows(raw);
    df := DropMissingRefIds(df);
    assert df == Surviving(raw);
    df := ForwardFillRows(df);
    ghost var full := Ledger.Normalise(raw);
    records := [];
    var i := 0;
    while i < |df|
      invariant 0 <= i <= |df| == |full|
      invariant records == full[..i]
    {
      Ledger.NormaliseAt(raw, i);
      var p := CalculatePoints(df[i].age, df[i].interval, df[i].amount);
      records := records + [MakeRecord(df[i], p)];
      PrefixStep(full, i);
      i := i + 1;
    }
    assert full[..i] == full;
  }

  /** One more element of a prefix; kept as a lemma so that the loop body
      of Normalise does not reason about the slice itself. */
  lemma PrefixStep<T>(s: seq<T>, i: nat)
    requires i < |s|
    ensures s[..i + 1] == s[..i] + [s[i]]
  {
  }


  /** The method's `fundraiser_bonus` dictionary, filled through its own
      eligibility method. */
  method BuildBonusMap(records: seq<Record>) returns (bonus: map<string, E.Eligibility>)
    ensures forall id :: id in bonus <==> exists r :: r in records && r.fundraiserId == id
    ensures forall id :: id in bonus ==> bonus[id] == FundraiserBonus(records, id)
  {
    bonus := map[];
    var i := 0;
    while i < |records|
      invariant 0 <= i <= |records|
      invariant forall id :: id in bonus <==> exists k :: 0 <= k < i && records[k].fundraiserId == id
      invariant forall id :: id in bonus ==> bonus[id] == FundraiserBonus(records, id)
    {
      var id := records[i].fundraiserId;
      if id !in bonus {
        var e := CalculateBonusEligibility(StatusesOf(records, id));
        bonus := bonus[id := e];
      }
      assert id in bonus;
      i := i + 1;
    }
    forall id | exists r :: r in records && r.fundraiserId == id
      ensures id in bonus
    {
      var r :| r in records && r.fundraiserId == id;
      var k :| 0 <= k < |records| && records[k] == r;
    }
  }

  /** `format_csv` of the app: the assembled rows, the text of every
      written data line, and the row count it returns. */
  method FormatCsv(raw: seq<RawRow>, spell: Spelling) returns (rows: seq<OutRow>, lines: seq<string>, rowCount: nat)
    ensures rows == Assemble(Ledger.Normalise(raw))
    ensures |lines| == |rows| && forall i :: 0 <= i < |rows| ==> lines[i] == Join(Cells(rows[i], spell), ';')
    ensures rowCount == |rows|
  {
    var records := Normalise(raw);
    var bonus := BuildBonusMap(records);
    rows := AppendWeeks(records, bonus);
    lines := WriteRows(rows, spell);
    rowCount := |rows|;
  }

  /** The returned count is the number of detail rows plus one subtotal row
      per (week, name) block. */
  lemma RowCountIsDetailsPlusBlocks(raw: seq<RawRow>)
    ensures var bs := Blocks(Ledger.Normalise(raw));
      |Assemble(Ledger.Normalise(raw))| == DetailCount(bs) + |bs| &&
      CountSubtotals(Assemble(Ledger.Normalise(raw))) == |bs|
  {
    FlattenCounts(Blocks(Ledger.Normalise(raw)));
  }

  // ---------------------------------------------------------------------
  // Writing the rows

  /** `str()` of the numbers `final_df` holds: scores, ages and amounts. */
  datatype Spelling = Spelling(score: Points.HalfPoints -> string, integer: int -> string, decimal: real -> string)

  /** The value a cell of `final_df` holds. */
  datatype Value = Missing | Str(s: string) | Int(i: int) | Decimal(x: real) | Score(h: Points.HalfPoints)

  /** `required_columns`; the score is in column 8, the bonus in column 9. */
  const Columns: seq<string> := ["Fundraiser ID", "Fundraiser Name", "Calendar week", "Public RefID", "Age",
                                 "Interval", "Amount Yearly", "status_agency", "points", "bonus_status"]

  function OptionValue(v: Option<string>): Value {
    match v
    case Some(s) => Str(s)
    case None => Missing
  }

  /** The cell of an assembled row: a detail row is its record with a blank
      bonus; a subtotal row is blank up to its "Total: " text and bonus. */
  function CellValue(row: OutRow, col: nat, spell: Spelling): Value
    requires col < |Columns|
  {
    match row
    case Detail(r) =>
      [Str(r.fundraiserId), OptionValue(r.name), OptionValue(r.week), Str(r.refId), Int(r.age),
       Str(r.interval), Decimal(r.amount), Str(r.status), Score(r.points), Str("")][col]
    case Subtotal(total, bonus) =>
      if col == 8 then Str("Total: " + spell.score(total))
      else if col == 9 then Str(bonus.Label())
      else Str("")
  }

  /** Missing and empty cells are written as "", a score in the points
      column with ',' for '.', everything else as `str()` gives it. */
  function CellText(col: nat, v: Value, spell: Spelling): string {
    match v
    case Missing => ""
    case Str(s) => s
    case Int(i) => spell.integer(i)
    case Decimal(x) => spell.decimal(x)
    case Score(h) => if col == 8 then ReplaceChar(spell.score(h), '.', ',') else spell.score(h)
  }

  function Cells(row: OutRow, spell: Spelling): seq<string> {
    seq(|Columns|, c requires 0 <= c < |Columns| => CellText(c, CellValue(row, c, spell), spell))
  }

  function OptionText(v: Option<string>): string {
    match v
    case Some(s) => s
    case None => ""
  }

  /** The cells of one row: a detail row writes its record, the score in
      comma spelling and a blank bonus; a subtotal row is blank up to its
      "Total: " text and its bonus label. */
  lemma CellsOfRow(row: OutRow, spell: Spelling)
    ensures |Cells(row, spell)| == 10
    ensures row.Detail? ==>
      var r := row.record; var cells := Cells(row, spell);
      cells[0] == r.fundraiserId && cells[1] == OptionText(r.name) && cells[2] == OptionText(r.week) &&
      cells[3] == r.refId && cells[4] == spell.integer(r.age) && cells[5] == r.interval &&
      cells[6] == spell.decimal(r.amount) && cells[7] == r.status &&
      cells[8] == ReplaceChar(spell.score(r.points), '.', ',') && cells[9] == ""
    ensures row.Subtotal? ==>
      var cells := Cells(row, spell);
      (forall c :: 0 <= c < 8 ==> cells[c] == "") &&
      cells[8] == "Total: " + spell.score(row.total) && cells[9] == row.bonus.Label()
  {
    var cells := Cells(row, spell);
    if row.Detail? {
      assert cells[1] == CellText(1, OptionValue(row.record.name), spell);
      assert cells[2] == CellText(2, OptionValue(row.record.week), spell);
    } else {
      forall c | 0 <= c < 8 ensures cells[c] == "" {
        assert cells[c] == CellText(c, Str(""), spell);
      }
    }
  }

  /** The `row_values` loop over the ten columns of one row. */
  method RowValues(row: OutRow, spell: Spelling) returns (cells: seq<string>)
    ensures cells == Cells(row, spell)
  {
    cells := [];
    for c := 0 to |Columns|
      invariant |cells| == c
      invariant forall k :: 0 <= k < c ==> cells[k] == CellText(k, CellValue(row, k, spell), spell)
    {
      var value := CellValue(row, c, spell);
      var text: string;
      match value {
        case Missing => text := "";
        case Str(s) => text := s;
        case Int(i) => text := spell.integer(i);
        case Decimal(x) => text := spell.decimal(x);
        case Score(h) =>
          if c == 8 {
            text := ReplaceChar(spell.score(h), '.', ',');
          } else {
            text := spell.score(h);
          }
      }
      cells := cells + [text];
    }
  }

  /** One `';'.join(row_values)` line per assembled row. */
  method WriteRows(rows: seq<OutRow>, spell: Spelling) returns (lines: seq<string>)
    ensures |lines| == |rows| && forall i :: 0 <= i < |rows| ==> lines[i] == Join(Cells(rows[i], spell), ';')
  {
    lines := [];
    for i := 0 to |rows|
      invariant |lines| == i
      invariant forall k :: 0 <= k < i ==> lines[k] == Join(Cells(rows[k], spell), ';')
    {
      var cells := RowValues(rows[i], spell);
      lines := lines + [Join(cells, ';')];
    }
  }

  /** A written line splits back into its ten cells when no cell holds ';'. */
  lemma LineSplitsIntoCells(row: OutRow, spell: Spelling)
    requires forall c :: 0 <= c < 10 ==> ';' !in Cells(row, spell)[c]
    ensures Split(Join(Cells(row, spell), ';'), ';') == Cells(row, spell)
    ensures |Split(Join(Cells(row, spell), ';'), ';')| == |Columns|
  {
    SplitJoin(Cells(row, spell), ';');
  }

  // ---------------------------------------------------------------------
  // The float spelling of a score

  /** `str()` of a score held as a float: "3.0", "2.5". Exact for every
      score below 10^16 points. */
  function FloatScore(h: Points.HalfPoints): string {
    NatToString(h / 2) + ['.'] + FractionDigit(h)
  }

  /** The detail cell of a score written in float spelling: "3,0", "2,5". */
  function CommaScore(h: Points.HalfPoints): string {
    ReplaceChar(FloatScore(h), '.', ',')
  }

  lemma CommaScoreShape(h: Points.HalfPoints)
    ensures CommaScore(h) == NatToString(h / 2) + (if h % 2 == 0 then ",0" else ",5")
    ensures '.' !in CommaScore(h) && ';' !in CommaScore(h)
  {
    var ds := NatToString(h / 2);
    assert '.' !in ds && ',' !in ds && ';' !in ds;
    var tail := if h % 2 == 0 then ".0" else ".5";
    var want := ds + (if h % 2 == 0 then ",0" else ",5");
    assert |CommaScore(h)| == |want|;
    forall i | 0 <= i < |want| ensures CommaScore(h)[i] == want[i] {
      if i < |ds| {
        assert FloatScore(h)[i] == ds[i];
      } else {
        assert FloatScore(h)[i] == tail[i - |ds|];
      }
    }
  }

  /** Reading "3,0" back with ',' turned into '.' gives "3.0" again. */
  lemma CommaScoreBack(h: Points.HalfPoints)
    ensures ReplaceChar(CommaScore(h), ',', '.') == FloatScore(h)
  {
    var ds := NatToString(h / 2);
    assert '.' !in ds && ',' !in ds && ';' !in ds;
    var f := FloatScore(h);
    var back := ReplaceChar(CommaScore(h), ',', '.');
    forall i | 0 <= i < |f| ensures back[i] == f[i] {
      if i < |ds| {
        assert f[i] == ds[i];
      }
    }
  }

  /** `float()` of the float spelling is the score in points. */
  lemma FloatScoreParses(h: Points.HalfPoints)
    ensures ParseDecimal(FloatScore(h)) == Some(h as real / 2.0)
  {
    var ds := NatToString(h / 2);
    var frac := FractionDigit(h);
    DecimalLiteral(FloatScore(h), ds, frac);
    FloatScoreValue(h);
  }

  function FractionDigit(h: Points.HalfPoints): (frac: string)
    ensures |frac| == 1 && AllDigits(frac)
  {
    if h % 2 == 0 then "0" else "5"
  }

  lemma FloatScoreValue(h: Points.HalfPoints)
    ensures DecimalValue(NatToString(h / 2), FractionDigit(h)) == h as real / 2.0
  {
    var q := h / 2;
    var frac := FractionDigit(h);
    var f: nat := if h % 2 == 0 then 0 else 5;
    assert DigitsValue(frac) == f by {
      assert frac[..0] == [];
    }
    assert Pow10(|frac|) == 10;
    assert DigitsValue(frac) as real / Pow10(|frac|) as real == DigitsValue(frac) as real / 10.0;
    var v := DecimalValue(NatToString(q), frac);
    assert v == q as real + f as real / 10.0;
    if h % 2 == 0 {
      assert h as real == 2.0 * q as real;
    } else {
      assert h as real == 2.0 * q as real + 1.0;
    }
  }
}
