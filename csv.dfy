/** The CSV text of `exportCSV` and the parsing loop of `importCSV`: one
    header line, then one comma-joined line per record, lines joined by
    `\n`, with no quoting of any kind. */
module Csv {
  import opened Wrappers
  import opened JsText
  import opened Inventory

  /** The first line of every export. */
  const Header: string := "ID,Owner,Make,Model,Year,Color,Mileage"

  /** An undefined string property as `join` renders it: empty. */
  function StringCell(s: Option<string>): string
  {
    s.GetOr("")
  }

  /** `car.year` as `join` renders it: its decimal text, "NaN", or empty for `null`. */
  function YearCell(y: Year): string
  {
    match y
    case Num(n) => IntToDecimal(n)
    case NaN => "NaN"
    case Null => ""
  }

  /** `car.color || ''`. */
  function ColorCell(c: Option<string>): string
  {
    if Truthy(c) then c.value else ""
  }

  /** `car.mileage || ''`: 0 and `null` are both rendered empty. */
  function MileageCell(m: Option<int>): string
  {
    if m.Some? && m.value != 0 then IntToDecimal(m.value) else ""
  }

  /** The seven cells of a record's line, in column order. */
  function Cells(c: Car): seq<string>
  {
    [c.id, StringCell(c.owner), StringCell(c.make), StringCell(c.model),
     YearCell(c.year), ColorCell(c.color), MileageCell(c.mileage)]
  }

  /** A record's line: `row.join(',')`. */
  function Row(c: Car): string
  {
    Join(Cells(c), ',')
  }

  /** The lines of the records, in order. */
  function Rows(cs: seq<Car>): (r: seq<string>)
    ensures |r| == |cs|
  {
    seq(|cs|, k requires 0 <= k < |cs| => Row(cs[k]))
  }

  /** The text `exportCSV` offers for download. */
  function ExportCsv(cs: seq<Car>): string
  {
    Join([Header] + Rows(cs), '\n')
  }

  /** A cell that the naive format carries intact: no comma, no newline. */
  predicate Plain(s: string)
  {
    ',' !in s && '\n' !in s
  }

  /** A record whose text cells are all plain. */
  predicate CsvSafe(c: Car)
  {
    Plain(c.id) && Plain(StringCell(c.owner)) && Plain(StringCell(c.make))
    && Plain(StringCell(c.model)) && Plain(ColorCell(c.color))
  }

  /** A record none of whose text cells holds a newline, so that its row is
      one line of the export. */
  predicate SingleLine(c: Car)
  {
    '\n' !in c.id && '\n' !in StringCell(c.owner) && '\n' !in StringCell(c.make)
    && '\n' !in StringCell(c.model) && '\n' !in ColorCell(c.color)
  }

  /** A record none of whose text cells holds a comma, so that its row
      splits back into its cells. */
  predicate CommaFree(c: Car)
  {
    ',' !in c.id && ',' !in StringCell(c.owner) && ',' !in StringCell(c.make)
    && ',' !in StringCell(c.model) && ',' !in ColorCell(c.color)
  }

  /** Records that survive an export and an import: safe, with an id. */
  ghost predicate Importable(cs: seq<Car>)
  {
    forall k :: 0 <= k < |cs| ==> CsvSafe(cs[k]) && cs[k].id != []
  }

  /** Decimal texts are plain. */
  lemma DecimalPlain(n: int)
    ensures Plain(IntToDecimal(n))
  {
    var digits := NatToDecimal(if n < 0 then -n else n);
    assert forall k :: 0 <= k < |digits| ==> digits[k] != ',' && digits[k] != '\n';
    if n < 0 {
      assert IntToDecimal(n) == ['-'] + digits;
    }
  }

  /** A row holds no newline when no text cell of its record holds one;
      commas do not matter here. */
  lemma RowHasNoNewline(c: Car)
    requires SingleLine(c)
    ensures '\n' !in Row(c)
  {
    if c.year.Num? {
      DecimalPlain(c.year.n);
    }
    if c.mileage.Some? {
      DecimalPlain(c.mileage.value);
    }
    JoinAvoids(Cells(c), ',', '\n');
  }

  /** Joining pieces that avoid a character, with a different separator,
      gives a text that avoids it too. */
  lemma {:induction false} JoinAvoids(parts: seq<string>, sep: char, x: char)
    requires sep != x
    requires forall k :: 0 <= k < |parts| ==> x !in parts[k]
    ensures x !in Join(parts, sep)
  {
    if |parts| > 1 {
      JoinAvoids(parts[1..], sep, x);
    }
  }

  /** The export is the header followed by one line per record, in order,
      when no record holds a newline in a text cell. */
  lemma ExportLines(cs: seq<Car>)
    requires forall k :: 0 <= k < |cs| ==> SingleLine(cs[k])
    ensures Split(ExportCsv(cs), '\n') == [Header] + Rows(cs)
  {
    var lines := [Header] + Rows(cs);
    forall k | 0 <= k < |lines| ensures '\n' !in lines[k] {
      if k == 0 {
        HeaderPlain();
      } else {
        assert lines[k] == Row(cs[k - 1]);
        RowHasNoNewline(cs[k - 1]);
      }
    }
    SplitJoin(lines, '\n');
  }

  /** The header holds no newline. */
  lemma HeaderPlain()
    ensures '\n' !in Header
  {
  }

  /** Each exported line splits back into its record's seven cells, in column
      order, when no text cell holds a comma; newlines do not matter here. */
  lemma RowCells(c: Car)
    requires CommaFree(c)
    ensures Split(Row(c), ',') == Cells(c)
  {
    if c.year.Num? {
      DecimalPlain(c.year.n);
    }
    if c.mileage.Some? {
      DecimalPlain(c.mileage.value);
    }
    SplitJoin(Cells(c), ',');
  }

  /** `values[k]`: `undefined` past the end of the split line. */
  function At(values: seq<string>, k: nat): Option<string>
  {
    if k < |values| then Some(values[k]) else None
  }

  /** The record `importCSV` builds from line `i` of the file: columns are
      taken by position; an empty id is replaced by `'car' + Date.now() + i`;
      the year and the mileage are read by `parseInt` (an undefined column
      is parsed as the text "undefined", which is NaN); an empty color is
      `null`; the image is `null`. */
  function ParseRow(line: string, i: nat, now: nat): Car
  {
    var v := Split(line, ',');
    Car(if v[0] != [] then v[0] else "car" + NatToDecimal(now) + NatToDecimal(i),
        At(v, 1), At(v, 2), At(v, 3),
        YearOf(ParseInt(At(v, 4).GetOr("undefined"))),
        if Truthy(At(v, 5)) then At(v, 5) else None,
        OrNull(ParseInt(At(v, 6).GetOr("undefined"))),
        None)
  }

  /** The records the import loop appends for lines `1` to `n - 1`: line 0 is
      the header and lines whose `trim()` is empty are skipped. */
  function ImportRows(lines: seq<string>, n: nat, now: nat): seq<Car>
    requires n <= |lines|
  {
    if n <= 1 then []
    else
      ImportRows(lines, n - 1, now) + LineRecords(lines[n - 1], n - 1, now)
  }

  /** What line `i` adds: nothing when its `trim()` is empty, else its record. */
  function LineRecords(line: string, i: nat, now: nat): seq<Car>
  {
    if Trim(line) != [] then [ParseRow(line, i, now)] else []
  }

  /** Every record `importCSV` appends, in the order it appends them. */
  function ImportedCars(text: string, now: nat): seq<Car>
  {
    var lines := Split(text, '\n');
    ImportRows(lines, |lines|, now)
  }

  /** What survives an export followed by an import: id, owner, make, model
      and a numeric year come back as they were; an undefined text field comes
      back empty, a non-numeric year as NaN; a non-empty color and a non-zero
      mileage come back, anything else as `null`; the image is lost. */
  function Reimported(c: Car): (r: Car)
    ensures r.id == c.id
    ensures r.owner == Some(c.owner.GetOr("")) && r.make == Some(c.make.GetOr("")) && r.model == Some(c.model.GetOr(""))
    ensures c.year.Num? ==> r.year == c.year
    ensures Truthy(c.color) ==> r.color == c.color
    ensures (c.mileage.Some? && c.mileage.value != 0) ==> r.mileage == c.mileage
  {
    Car(c.id, Some(StringCell(c.owner)), Some(StringCell(c.make)), Some(StringCell(c.model)),
        if c.year.Num? then c.year else NaN,
        if Truthy(c.color) then c.color else None,
        OrNull(c.mileage),
        None)
  }

  /** `Reimported` applied to every record, in order. */
  function ReimportedAll(cs: seq<Car>): (r: seq<Car>)
    ensures |r| == |cs|
    ensures forall k :: 0 <= k < |cs| ==> r[k] == Reimported(cs[k])
  {
    if cs == [] then []
    else ReimportedAll(cs[..|cs| - 1]) + [Reimported(cs[|cs| - 1])]
  }

  /** The year cell reads back as the year, or NaN when it was not a number. */
  lemma YearCellRoundTrip(y: Year)
    ensures YearOf(ParseInt(YearCell(y))) == if y.Num? then y else NaN
  {
    match y
    case Num(n) => ParseIntDecimal(n);
    case NaN => NaNCellRoundTrip();
    case Null =>
  }

  /** The text "NaN" has no digits, so `parseInt` reads it back as NaN. */
  lemma NaNCellRoundTrip()
    ensures YearOf(ParseInt("NaN")) == NaN
  {
    assert DigitPrefix("NaN", 10) == [];
  }

  /** The mileage cell reads back as `mileage || null`. */
  lemma MileageCellRoundTrip(m: Option<int>)
    ensures OrNull(ParseInt(MileageCell(m))) == OrNull(m)
  {
    if m.Some? && m.value != 0 {
      ParseIntDecimal(m.value);
    }
  }

  /** A comma is not whitespace, so a line with a comma is never skipped. */
  lemma CommaLineNotBlank(line: string, k: nat)
    requires k < |line| && line[k] == ','
    ensures Trim(line) != []
  {
    TrimEmptyIffBlank(line);
  }

  /** Importing the line of a safe record with a non-empty id gives back the
      record as `Reimported` describes it. */
  lemma ParseRowOfRow(c: Car, i: nat, now: nat)
    requires CsvSafe(c) && c.id != []
    ensures ParseRow(Row(c), i, now) == Reimported(c)
    ensures Trim(Row(c)) != []
  {
    RowCells(c);
    YearCellRoundTrip(c.year);
    MileageCellRoundTrip(c.mileage);
    var cells := Cells(c);
    assert Row(c) == cells[0] + [','] + Join(cells[1..], ',');
    CommaLineNotBlank(Row(c), |cells[0]|);
  }

  /** Every record an import appends has an id (one is generated for an empty
      first column), no image, and either no color or a non-empty one. */
  lemma {:induction false} ImportedRecordsShape(lines: seq<string>, n: nat, now: nat)
    requires n <= |lines|
    ensures forall k :: 0 <= k < |ImportRows(lines, n, now)| ==>
      var r := ImportRows(lines, n, now)[k];
      r.id != [] && r.image.None? && (r.color.None? || r.color.value != [])
  {
    if n > 1 {
      ImportedRecordsShape(lines, n - 1, now);
    }
  }

  /** A line that is not blank adds its record after those of the lines before it. */
  lemma ImportRowsStep(lines: seq<string>, n: nat, now: nat)
    requires 1 <= n < |lines| && Trim(lines[n]) != []
    ensures ImportRows(lines, n + 1, now) == ImportRows(lines, n, now) + [ParseRow(lines[n], n, now)]
  {
  }

  /** One more line, after records `p` that were there before the import. */
  lemma ImportRowsAfter(p: seq<Car>, lines: seq<string>, n: nat, now: nat)
    requires 1 <= n < |lines|
    ensures p + ImportRows(lines, n + 1, now) == p + ImportRows(lines, n, now) + LineRecords(lines[n], n, now)
  {
  }

  /** A blank line adds nothing. */
  lemma ImportRowsSkip(lines: seq<string>, n: nat, now: nat)
    requires 1 <= n < |lines| && Trim(lines[n]) == []
    ensures ImportRows(lines, n + 1, now) == ImportRows(lines, n, now)
  {
  }

  /** The lines after the header import as the records they came from. */
  lemma {:induction false} ImportRowsOfExport(cs: seq<Car>, m: nat, now: nat)
    requires m <= |cs|
    requires Importable(cs)
    ensures ImportRows([Header] + Rows(cs), m + 1, now) == ReimportedAll(cs[..m])
  {
    if m > 0 {
      ImportRowsOfExport(cs, m - 1, now);
      ImportRowOfRecord([Header] + Rows(cs), m, cs[m - 1], now);
      ReimportedAllStep(cs, m);
    }
  }

  /** A line holding the export of a safe record adds that record as it
      survives the round trip. */
  lemma ImportRowOfRecord(lines: seq<string>, m: nat, c: Car, now: nat)
    requires 1 <= m < |lines| && lines[m] == Row(c)
    requires CsvSafe(c) && c.id != []
    ensures ImportRows(lines, m + 1, now) == ImportRows(lines, m, now) + [Reimported(c)]
  {
    ParseRowOfRow(c, m, now);
    ImportRowsStep(lines, m, now);
  }

  /** `ReimportedAll` over one more record of a prefix. */
  lemma ReimportedAllStep(cs: seq<Car>, m: nat)
    requires 0 < m <= |cs|
    ensures ReimportedAll(cs[..m]) == ReimportedAll(cs[..m - 1]) + [Reimported(cs[m - 1])]
  {
    assert cs[..m][..m - 1] == cs[..m - 1];
  }

  /** The import of a text is the import of its lines. */
  lemma ImportedCarsOfLines(text: string, lines: seq<string>, now: nat)
    requires Split(text, '\n') == lines
    ensures ImportedCars(text, now) == ImportRows(lines, |lines|, now)
  {
  }

  /** Importing an export reads every line of it after the header. */
  lemma ImportOfExport(cs: seq<Car>, now: nat)
    requires forall k :: 0 <= k < |cs| ==> CsvSafe(cs[k])
    ensures ImportedCars(ExportCsv(cs), now) == ImportRows([Header] + Rows(cs), |cs| + 1, now)
  {
    ExportLines(cs);
    ImportedCarsOfLines(ExportCsv(cs), [Header] + Rows(cs), now);
  }

  /** All the lines after the header import as the records they came from. */
  lemma ImportRowsOfWholeExport(cs: seq<Car>, now: nat)
    requires Importable(cs)
    ensures ImportRows([Header] + Rows(cs), |cs| + 1, now) == ReimportedAll(cs)
  {
    ImportRowsOfExport(cs, |cs|, now);
    assert cs[..|cs|] == cs;
  }

  /** Round trip: importing an export appends exactly the surviving form of
      every record, in order, provided no text cell holds a comma or a
      newline and every id is non-empty. */
  lemma ExportImportRoundTrip(cs: seq<Car>, now: nat)
    requires Importable(cs)
    ensures ImportedCars(ExportCsv(cs), now) == ReimportedAll(cs)
  {
    var lines := [Header] + Rows(cs);
    assert ImportedCars(ExportCsv(cs), now) == ImportRows(lines, |cs| + 1, now) by {
      ImportOfExport(cs, now);
    }
    assert ImportRows(lines, |cs| + 1, now) == ReimportedAll(cs) by {
      ImportRowsOfWholeExport(cs, now);
    }
  }

  /** Export of a record without a color and with mileage 0: both cells are
      left empty. */
  lemma ExportExample()
    ensures Row(Car("c1", Some("A"), Some("B"), Some("C"), Num(7), None, Some(0), None)) == "c1,A,B,C,7,,"
  {
    ExportExampleCells();
    ExportExampleJoin();
  }

  /** The cells of the export example. */
  lemma ExportExampleCells()
    ensures Cells(Car("c1", Some("A"), Some("B"), Some("C"), Num(7), None, Some(0), None)) == ["c1", "A", "B", "C", "7", "", ""]
  {
    assert NatToDecimal(7) == "7";
  }

  /** The line of the export example. */
  lemma ExportExampleJoin()
    ensures Join(["c1", "A", "B", "C", "7", "", ""], ',') == "c1,A,B,C,7,,"
  {
    var cells := ["c1", "A", "B", "C", "7", "", ""];
    assert Join(cells[5..], ',') == ",";
    assert Join(cells[4..], ',') == "7,,";
    assert Join(cells[3..], ',') == "C,7,,";
    assert Join(cells[2..], ',') == "B,C,7,,";
    assert Join(cells[1..], ',') == "A,B,C,7,,";
  }

  /** The lines of the import example. */
  lemma ExampleLines()
    ensures Split("ID\n,Dan\n \n", '\n') == ["ID", ",Dan", " ", ""]
  {
    var lines := ["ID", ",Dan", " ", ""];
    assert Join(lines, '\n') == "ID\n,Dan\n \n";
    SplitJoin(lines, '\n');
  }

  /** The cells of the example's short line. */
  lemma ExampleCells()
    ensures Split(",Dan", ',') == ["", "Dan"]
  {
    SplitJoin(["", "Dan"], ',');
  }

  /** `parseInt(undefined)`, which reads the text "undefined", is NaN. */
  lemma ParseUndefined()
    ensures ParseInt("undefined") == None
  {
    assert TrimStart("undefined") == "undefined";
    assert "undefined"[0] == 'u';
    assert DigitPrefix("undefined", 10) == [];
  }

  /** A line holding one space is skipped. */
  lemma SpaceIsBlank()
    ensures Trim(" ") == []
  {
    assert TrimStart(" ") == TrimStart(" "[1..]);
    assert " "[1..] == [];
  }

  /** Import of a short line with an empty id, followed by a whitespace-only
      line and an empty last line: the id is generated from the clock and the
      line number, the missing columns stay undefined, the year is NaN, and
      the other two lines are skipped. */
  lemma ImportExample(now: nat)
    ensures ImportedCars("ID\n,Dan\n \n", now)
         == [Car("car" + NatToDecimal(now) + "1", Some("Dan"), None, None, NaN, None, None, None)]
  {
    var lines := ["ID", ",Dan", " ", ""];
    ExampleLines();
    ExampleRecord(now);
    CommaLineNotBlank(lines[1], 0);
    ImportRowsStep(lines, 1, now);
    SpaceIsBlank();
    ImportRowsSkip(lines, 2, now);
    ImportRowsSkip(lines, 3, now);
  }

  /** The record of the example's short line. */
  lemma ExampleRecord(now: nat)
    ensures ParseRow(",Dan", 1, now) == Car("car" + NatToDecimal(now) + "1", Some("Dan"), None, None, NaN, None, None, None)
  {
    ExampleCells();
    ParseUndefined();
  }
}
