/** The formatted CSV as the renderers read it back: `read_csv(sep=';')`
    gives one row per written line, an empty field becoming NaN; the row
    filter both renderers apply before grouping by fundraiser; and the link
    to the formatter's writer: detail lines survive the filter, subtotal
    lines do not. */
module FormattedCsv {
  import opened Wrappers
  import opened Text
  import opened Report
  import opened Ledger
  import FormatterApp
  import Ordering
  import Points

  /** One row as pandas holds it: every cell as its text, `None` for NaN.
      The bonus column is not read by either renderer. */
  datatype Row = Row(fundraiserId: Option<string>, name: Option<string>, week: Option<string>,
                     refId: Option<string>, age: Option<string>, interval: Option<string>,
                     amount: Option<string>, status: Option<string>, points: Option<string>)

  /** An empty field is read as NaN. */
  function Cell(s: string): Option<string> {
    if s == "" then None else Some(s)
  }

  /** The row read from the fields of one line. */
  function ReadRow(fields: seq<string>): Row
    requires |fields| >= 9
  {
    Row(Cell(fields[0]), Cell(fields[1]), Cell(fields[2]), Cell(fields[3]), Cell(fields[4]),
        Cell(fields[5]), Cell(fields[6]), Cell(fields[7]), Cell(fields[8]))
  }

  /** The filter of both renderers: a reference id that is present, not
      empty and without "Total:" in it. */
  predicate Kept(r: Row) {
    r.refId.Some? && r.refId.value != "" && !Contains(r.refId.value, "Total:")
  }

  function KeepRows(rows: seq<Row>): seq<Row> {
    if rows == [] then []
    else KeepRows(rows[..|rows| - 1]) + (if Kept(rows[|rows| - 1]) then [rows[|rows| - 1]] else [])
  }

  /** The filter keeps exactly the rows it accepts, in their order. */
  lemma {:induction false} KeepRowsMember(rows: seq<Row>, r: Row)
    ensures r in KeepRows(rows) <==> r in rows && Kept(r)
  {
    if rows != [] {
      var init := rows[..|rows| - 1];
      KeepRowsMember(init, r);
      assert rows == init + [rows[|rows| - 1]];
    }
  }

  /** `groupby(['Fundraiser ID', 'Fundraiser Name'])`: the rows of one
      (ID, name) key, in their order; rows with a missing key belong to no
      group. */
  function FundraiserRows(rows: seq<Row>, id: string, name: string): seq<Row> {
    if rows == [] then []
    else
      var last := rows[|rows| - 1];
      FundraiserRows(rows[..|rows| - 1], id, name) +
      (if last.fundraiserId == Some(id) && last.name == Some(name) then [last] else [])
  }

  lemma {:induction false} FundraiserRowsMember(rows: seq<Row>, id: string, name: string, r: Row)
    ensures r in FundraiserRows(rows, id, name) <==> r in rows && r.fundraiserId == Some(id) && r.name == Some(name)
  {
    if rows != [] {
      var init := rows[..|rows| - 1];
      FundraiserRowsMember(init, id, name, r);
      assert rows == init + [rows[|rows| - 1]];
    }
  }

  /** The week labels that are present, in row order. */
  function PresentWeeks(rows: seq<Row>): seq<string> {
    if rows == [] then []
    else
      var last := rows[|rows| - 1];
      PresentWeeks(rows[..|rows| - 1]) + (if last.week.Some? then [last.week.value] else [])
  }

  /** `dropna().unique()` of the week column, which both renderers take the
      month and the week sections from. */
  function CalendarWeeks(rows: seq<Row>): seq<string> {
    Ordering.Unique(PresentWeeks(rows))
  }

  /** `float(str(points).replace(',', '.'))`; `None` where `float()` raises.
      A missing cell prints as "nan", which `float()` reads as NaN; the model
      has no NaN and gives `None` for it too. */
  function ParsePoints(p: Option<string>): Option<real> {
    if p.None? then None else ParseDecimal(ReplaceChar(p.value, ',', '.'))
  }

  /** A formatter score reads back as its value. */
  lemma CommaScoreParses(h: Points.HalfPoints)
    ensures ParsePoints(Some(FormatterApp.CommaScore(h))) == Some(h as real / 2.0)
  {
    FormatterApp.CommaScoreBack(h);
    FormatterApp.FloatScoreParses(h);
  }

  // ---------------------------------------------------------------------
  // Reading back what the formatter wrote

  /** The row a renderer reads from the line written for an assembled row. */
  function ReadBack(row: OutRow, spell: FormatterApp.Spelling): Row {
    var fields := Split(Join(FormatterApp.Cells(row, spell), ';'), ';');
    if |fields| >= 9 then ReadRow(fields) else Row(None, None, None, None, None, None, None, None, None)
  }

  /** A line splits back into the cells written, when no cell holds ';'. */
  lemma ReadBackCells(row: OutRow, spell: FormatterApp.Spelling)
    requires forall c :: 0 <= c < 10 ==> ';' !in FormatterApp.Cells(row, spell)[c]
    ensures ReadBack(row, spell) == ReadRow(FormatterApp.Cells(row, spell))
  {
    FormatterApp.LineSplitsIntoCells(row, spell);
  }

  /** The renderers' filter keeps a written line exactly when it is a detail
      line of a record whose reference id has no "Total:" in it: every
      subtotal line is dropped. */
  lemma FilterKeepsDetailLines(row: OutRow, spell: FormatterApp.Spelling)
    requires forall c :: 0 <= c < 10 ==> ';' !in FormatterApp.Cells(row, spell)[c]
    requires row.Detail? ==> row.record.refId != ""
    ensures Kept(ReadBack(row, spell)) <==> row.Detail? && !Contains(row.record.refId, "Total:")
  {
    ReadBackCells(row, spell);
    FormatterApp.CellsOfRow(row, spell);
  }

  /** A detail line reads back as its record: id, name, week label,
      reference id and status, and the score in the formatter's
      comma spelling when scores are spelled as floats. */
  lemma ReadBackDetail(r: Record, spell: FormatterApp.Spelling)
    requires forall c :: 0 <= c < 10 ==> ';' !in FormatterApp.Cells(Detail(r), spell)[c]
    requires spell.score(r.points) == FormatterApp.FloatScore(r.points)
    ensures var back := ReadBack(Detail(r), spell);
      back.fundraiserId == Cell(r.fundraiserId) && back.name == Cell(FormatterApp.OptionText(r.name)) &&
      back.week == Cell(FormatterApp.OptionText(r.week)) && back.refId == Cell(r.refId) &&
      back.status == Cell(r.status) && back.points == Some(FormatterApp.CommaScore(r.points))
  {
    ReadBackCells(Detail(r), spell);
    FormatterApp.CellsOfRow(Detail(r), spell);
    FormatterApp.CommaScoreShape(r.points);
  }
}
