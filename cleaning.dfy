/**
 * The value-cleaning half of `standardize_columns`: once the headers carry
 * their canonical names, the `date` column is parsed and its failures
 * dropped, the four numeric columns are coerced with 0 for failures, and
 * `cow_id` becomes a string without its float `.0`.
 *
 * A frame is kept column by column, as pandas keeps it. The pandas parsers
 * (`to_datetime`, `to_numeric`, `astype(str)`) are parameters.
 */
module Cleaning {
  import opened Wrappers
  import opened Schema
  import opened Dates

  /** A cell as the reader delivers it, or as a cleaning step leaves it; Missing is NaN/None. */
  datatype Cell = Missing | Text(text: string) | Number(value: real)

  /**
   * `pd.to_datetime(column, errors='coerce')` at one row. The whole column is
   * an argument because pandas infers one format per column; None is NaT.
   */
  type DateParser = (seq<Cell>, nat) -> Option<Timestamp>
  /** `pd.to_numeric(cell, errors='coerce')`; None is NaN. */
  type NumberParser = Cell -> Option<real>
  /** `str(cell)`, as `astype(str)` applies it. */
  type Stringify = Cell -> string

  datatype Parsers = Parsers(date: DateParser, number: NumberParser, show: Stringify)

  /**
   * A canonical name that labels several columns makes `df[name]` a frame
   * rather than a column, and the step for that field raises.
   */
  datatype Error = DuplicateColumn(field: Field)

  /** Column labels, one sequence of cells per column, and the number of rows. */
  datatype Frame = Frame(columns: seq<string>, cells: seq<seq<Cell>>, height: nat)

  predicate WellFormed(f: Frame)
  {
    |f.cells| == |f.columns| && forall j :: 0 <= j < |f.cells| ==> |f.cells[j]| == f.height
  }

  // ---------------------------------------------------------------------
  // Column lookup
  // ---------------------------------------------------------------------

  predicate Duplicated(columns: seq<string>, name: string)
  {
    exists i, j :: 0 <= i < j < |columns| && columns[i] == name && columns[j] == name
  }

  /** The first column labelled `name`. */
  function Find(columns: seq<string>, name: string): (r: Option<nat>)
    ensures r.Some? ==> r.value < |columns| && columns[r.value] == name
    ensures r.Some? ==> forall k :: 0 <= k < r.value ==> columns[k] != name
    ensures r.None? <==> name !in columns
  {
    if columns == [] then None
    else if columns[0] == name then Some(0)
    else
      assert columns == [columns[0]] + columns[1..];
      match Find(columns[1..], name)
      case None => None
      case Some(i) => Some(i + 1)
  }

  /** `df[Name(f)]`: the one column so labelled, none, or the error a repeated label causes. */
  function Locate(columns: seq<string>, f: Field): (r: Result<Option<nat>, Error>)
    ensures r.Err? <==> Duplicated(columns, Name(f))
    ensures r.Err? ==> r.error == DuplicateColumn(f)
    ensures r == Ok(None) <==> Name(f) !in columns
    ensures r.Ok? && r.value.Some? ==>
      r.value.value < |columns| && forall k :: 0 <= k < |columns| ==> (columns[k] == Name(f) <==> k == r.value.value)
  {
    if Duplicated(columns, Name(f)) then Err(DuplicateColumn(f))
    else if Find(columns, Name(f)).None? then Ok(None)
    else
      FoundOnce(columns, Name(f));
      Ok(Find(columns, Name(f)))
  }

  /** Without a repeated label, the column found is the only one so labelled. */
  lemma FoundOnce(columns: seq<string>, name: string)
    requires !Duplicated(columns, name) && Find(columns, name).Some?
    ensures forall k :: 0 <= k < |columns| ==> (columns[k] == name <==> k == Find(columns, name).value)
  {
  }

  // ---------------------------------------------------------------------
  // Rows
  // ---------------------------------------------------------------------

  /** The row numbers of `dropna(subset=["date"])`: those whose date parsed, in their original order. */
  function Survivors(parsed: seq<Option<Timestamp>>): (rows: seq<nat>)
    ensures |rows| <= |parsed|
    ensures forall k :: 0 <= k < |rows| ==> rows[k] < |parsed| && parsed[rows[k]].Some?
    ensures forall k, l :: 0 <= k < l < |rows| ==> rows[k] < rows[l]
    ensures forall i :: 0 <= i < |parsed| && parsed[i].Some? ==> i in rows
  {
    if parsed == [] then []
    else
      var n := |parsed| - 1;
      var rows := Survivors(parsed[..n]);
      assert forall k :: 0 <= k < |rows| ==> parsed[rows[k]] == parsed[..n][rows[k]];
      if parsed[n].Some? then rows + [n] else rows
  }

  function AllRows(height: nat): (rows: seq<nat>)
    ensures |rows| == height && forall k :: 0 <= k < height ==> rows[k] == k
  {
    seq(height, k requires 0 <= k < height => k)
  }

  /** The cells of `column` at the given rows. */
  function Select(column: seq<Cell>, rows: seq<nat>): (r: seq<Cell>)
    requires forall k :: 0 <= k < |rows| ==> rows[k] < |column|
    ensures |r| == |rows|
  {
    seq(|rows|, k requires 0 <= k < |rows| => column[rows[k]])
  }

  // ---------------------------------------------------------------------
  // Cell conversions
  // ---------------------------------------------------------------------

  predicate EndsWith(s: string, suffix: string)
  {
    |suffix| <= |s| && s[|s| - |suffix|..] == suffix
  }

  /**
   * `re.sub(r'\.0$', '', s)`. Python's `$` matches at the very end and also
   * just before a final newline, so at most one `.0` goes, in either place.
   */
  function StripDotZero(s: string): (r: string)
    ensures EndsWith(s, ".0") ==> s == r + ".0"
    ensures EndsWith(s, ".0\n") ==> r != [] && r[|r| - 1] == '\n' && s == r[..|r| - 1] + ".0\n"
    ensures r == s <==> !EndsWith(s, ".0") && !EndsWith(s, ".0\n")
  {
    if EndsWith(s, ".0") then
      assert s[|s| - 1] == '0' && s == s[..|s| - 2] + ".0";
      s[..|s| - 2]
    else if EndsWith(s, ".0\n") then
      var r := s[..|s| - 3] + "\n";
      assert r[..|r| - 1] == s[..|s| - 3] && s == r[..|r| - 1] + ".0\n";
      r
    else s
  }

  /** The date cell of row `i`, rendered as `YYYY-MM-DD`; Missing (NaT) when it does not parse. */
  function DateCell(column: seq<Cell>, i: nat, parse: DateParser): (r: Cell)
    ensures r.Text? <==> parse(column, i).Some?
    ensures !r.Text? ==> r == Missing
    ensures r.Text? ==> ParseIso(r.text) == Some(parse(column, i).value.date)
  {
    match parse(column, i)
    case Some(t) =>
      ParseFormat(t);
      Text(FormatIso(t))
    case None => Missing
  }

  /** The per-cell conversion of a numeric column and of the `cow_id` column. */
  datatype Coercion = ToNumber(parse: NumberParser) | ToId(show: Stringify)

  function Coerce(how: Coercion, x: Cell): (r: Cell)
    ensures how.ToNumber? ==> r.Number?
    ensures how.ToNumber? && how.parse(x).Some? ==> r.value == how.parse(x).value
    ensures how.ToNumber? && how.parse(x).None? ==> r.value == 0.0
    ensures how.ToId? ==> r.Text?
    ensures how.ToId? && EndsWith(how.show(x), ".0") ==> how.show(x) == r.text + ".0"
    ensures how.ToId? && !EndsWith(how.show(x), ".0") && !EndsWith(how.show(x), ".0\n") ==> r.text == how.show(x)
    ensures how.ToId? ==> r.text == StripDotZero(how.show(x))
  {
    match how
    case ToNumber(parse) => Number(parse(x).GetOr(0.0))
    case ToId(show) => Text(StripDotZero(show(x)))
  }

  // ---------------------------------------------------------------------
  // The cleaning steps
  // ---------------------------------------------------------------------

  /** The rows that survive cleaning: those whose date parsed, or all rows when no column is `date`. */
  function KeptRows(f: Frame, parse: DateParser): (rows: seq<nat>)
    requires WellFormed(f)
    ensures forall k :: 0 <= k < |rows| ==> rows[k] < f.height
    ensures forall k, l :: 0 <= k < l < |rows| ==> rows[k] < rows[l]
  {
    match Find(f.columns, Name(Date))
    case None => AllRows(f.height)
    case Some(c) => Survivors(seq(f.height, i requires 0 <= i < f.height => parse(f.cells[c], i)))
  }

  /** Step 1 (lines 53-59): parse `date`, drop the rows where it failed, render the rest. */
  function CleanDates(f: Frame, parse: DateParser): (r: Result<Frame, Error>)
    requires WellFormed(f)
    ensures r.Err? <==> Duplicated(f.columns, Name(Date))
    ensures r.Err? ==> r.error == DuplicateColumn(Date)
    ensures r.Ok? ==> WellFormed(r.value) && r.value.columns == f.columns
    ensures r.Ok? ==> r.value.height == |KeptRows(f, parse)|
    ensures r.Ok? ==> forall j, k :: 0 <= j < |f.columns| && 0 <= k < r.value.height ==>
      r.value.cells[j][k] ==
        if f.columns[j] == Name(Date) then DateCell(f.cells[j], KeptRows(f, parse)[k], parse)
        else f.cells[j][KeptRows(f, parse)[k]]
  {
    match Locate(f.columns, Date)
    case Err(e) => Err(e)
    case Ok(None) => Ok(f)
    case Ok(Some(c)) =>
      var rows := KeptRows(f, parse);
      Ok(Frame(f.columns,
               seq(|f.cells|, j requires 0 <= j < |f.cells| =>
                 if j == c then seq(|rows|, k requires 0 <= k < |rows| => DateCell(f.cells[c], rows[k], parse))
                 else Select(f.cells[j], rows)),
               |rows|))
  }

  /** Converts every cell of the column named after `field`, if there is one. */
  function CoerceColumn(f: Frame, field: Field, how: Coercion): (r: Result<Frame, Error>)
    requires WellFormed(f)
    ensures r.Err? <==> Duplicated(f.columns, Name(field))
    ensures r.Err? ==> r.error == DuplicateColumn(field)
    ensures r.Ok? ==> WellFormed(r.value) && r.value.columns == f.columns && r.value.height == f.height
    ensures r.Ok? ==> forall j, i :: 0 <= j < |f.columns| && 0 <= i < f.height ==>
      r.value.cells[j][i] == if f.columns[j] == Name(field) then Coerce(how, f.cells[j][i]) else f.cells[j][i]
  {
    match Locate(f.columns, field)
    case Err(e) => Err(e)
    case Ok(None) => Ok(f)
    case Ok(Some(c)) =>
      Ok(f.(cells := f.cells[c := seq(f.height, i requires 0 <= i < f.height => Coerce(how, f.cells[c][i]))]))
  }

  /** The field, if any, among `fields` whose canonical name is `name`. */
  predicate NamedIn(name: string, fields: seq<Field>)
  {
    exists m :: 0 <= m < |fields| && Name(fields[m]) == name
  }

  /** Step 2 (lines 62-66): `to_numeric(...).fillna(0)` on each of `fields` in turn. */
  function CleanNumerics(f: Frame, fields: seq<Field>, parse: NumberParser): (r: Result<Frame, Error>)
    requires WellFormed(f)
    ensures r.Ok? ==> WellFormed(r.value) && r.value.columns == f.columns && r.value.height == f.height
    ensures r.Err? ==> r.error.field in fields && Duplicated(f.columns, Name(r.error.field))
    decreases |fields|
  {
    if fields == [] then Ok(f)
    else
      match CoerceColumn(f, fields[0], ToNumber(parse))
      case Err(e) => Err(e)
      case Ok(g) => CleanNumerics(g, fields[1..], parse)
  }

  /**
   * The numeric step fails exactly when one of its columns is repeated, and
   * otherwise converts each cell of those columns once and leaves the rest.
   */
  lemma {:induction false} CleanNumericsSpec(f: Frame, fields: seq<Field>, parse: NumberParser)
    requires WellFormed(f)
    requires forall m, n :: 0 <= m < n < |fields| ==> Name(fields[m]) != Name(fields[n])
    ensures CleanNumerics(f, fields, parse).Err? <==> exists m :: 0 <= m < |fields| && Duplicated(f.columns, Name(fields[m]))
    ensures CleanNumerics(f, fields, parse).Err? ==>
      var e := CleanNumerics(f, fields, parse).error; e.field in fields && Duplicated(f.columns, Name(e.field))
    ensures CleanNumerics(f, fields, parse).Ok? ==> forall j, i :: 0 <= j < |f.columns| && 0 <= i < f.height ==>
      CleanNumerics(f, fields, parse).value.cells[j][i] ==
        if NamedIn(f.columns[j], fields) then Coerce(ToNumber(parse), f.cells[j][i]) else f.cells[j][i]
    decreases |fields|
  {
    if fields != [] {
      var first := CoerceColumn(f, fields[0], ToNumber(parse));
      if first.Ok? {
        var g := first.value;
        var rest := fields[1..];
        CleanNumericsSpec(g, rest, parse);
        assert forall m :: 0 <= m < |rest| ==> rest[m] == fields[m + 1];
        NumericStepCells(f, g, CleanNumerics(f, fields, parse), fields, parse);
      }
    }
  }

  lemma NumericStepCells(f: Frame, g: Frame, r: Result<Frame, Error>, fields: seq<Field>, parse: NumberParser)
    requires WellFormed(f) && fields != []
    requires forall m, n :: 0 <= m < n < |fields| ==> Name(fields[m]) != Name(fields[n])
    requires CoerceColumn(f, fields[0], ToNumber(parse)) == Ok(g)
    requires r.Ok? ==> WellFormed(r.value) && r.value.columns == g.columns && r.value.height == g.height
    requires r.Ok? ==> forall j, i :: 0 <= j < |g.columns| && 0 <= i < g.height ==>
      r.value.cells[j][i] == if NamedIn(g.columns[j], fields[1..]) then Coerce(ToNumber(parse), g.cells[j][i]) else g.cells[j][i]
    ensures r.Ok? ==> forall j, i :: 0 <= j < |f.columns| && 0 <= i < f.height ==>
      r.value.cells[j][i] == if NamedIn(f.columns[j], fields) then Coerce(ToNumber(parse), f.cells[j][i]) else f.cells[j][i]
  {
    var rest := fields[1..];
    if r.Ok? {
      forall j, i | 0 <= j < |f.columns| && 0 <= i < f.height
        ensures r.value.cells[j][i] == if NamedIn(f.columns[j], fields) then Coerce(ToNumber(parse), f.cells[j][i]) else f.cells[j][i]
      {
        var name := f.columns[j];
        if name == Name(fields[0]) {
          assert NamedIn(name, fields);
          assert !NamedIn(name, rest);
        } else if NamedIn(name, fields) {
          var m :| 0 <= m < |fields| && Name(fields[m]) == name;
          assert NamedIn(name, rest) by { assert Name(rest[m - 1]) == name; }
        } else {
          assert !NamedIn(name, rest);
        }
      }
    }
  }

  /** Step 3 (lines 69-71): `cow_id` as a string without a final `.0`. */
  function CleanCowIds(f: Frame, show: Stringify): (r: Result<Frame, Error>)
    requires WellFormed(f)
    ensures r.Err? <==> Duplicated(f.columns, Name(CowId))
    ensures r.Ok? ==> WellFormed(r.value) && r.value.columns == f.columns && r.value.height == f.height
    ensures r.Ok? ==> forall j, i :: 0 <= j < |f.columns| && 0 <= i < f.height ==>
      if f.columns[j] == Name(CowId) then r.value.cells[j][i].Text? else r.value.cells[j][i] == f.cells[j][i]
  {
    CoerceColumn(f, CowId, ToId(show))
  }

  /** The whole cleaning phase, in the source's order: dates, numbers, ids. */
  function Clean(f: Frame, p: Parsers): (r: Result<Frame, Error>)
    requires WellFormed(f)
    ensures r.Ok? ==> WellFormed(r.value) && r.value.columns == f.columns
    ensures r.Ok? ==> r.value.height == |KeptRows(f, p.date)| <= f.height
    ensures r.Err? ==> Duplicated(f.columns, Name(r.error.field))
    ensures Duplicated(f.columns, Name(Date)) || Duplicated(f.columns, Name(CowId)) ==> r.Err?
  {
    match CleanDates(f, p.date)
    case Err(e) => Err(e)
    case Ok(f1) =>
      match CleanNumerics(f1, NumericFields, p.number)
      case Err(e) => Err(e)
      case Ok(f2) => CleanCowIds(f2, p.show)
  }

  lemma NumericFieldsDistinct()
    ensures forall m, n :: 0 <= m < n < |NumericFields| ==> Name(NumericFields[m]) != Name(NumericFields[n])
  {
  }

  // ---------------------------------------------------------------------
  // What the cleaning phase promises
  // ---------------------------------------------------------------------

  /**
   * What cleaning leaves in the column `name` for original row `i`: a column-wise
   * reference for the three steps, which the step-by-step `Clean` is proved to meet.
   */
  function CleanedCell(name: string, column: seq<Cell>, i: nat, p: Parsers): Cell
    requires i < |column|
  {
    if name == Name(Date) then DateCell(column, i, p.date)
    else if NamedIn(name, NumericFields) then Coerce(ToNumber(p.number), column[i])
    else if name == Name(CowId) then Coerce(ToId(p.show), column[i])
    else column[i]
  }

  /** Cleaning fails exactly when a canonical name labels several columns, and names one such field. */
  lemma CleanFailsOnDuplicates(f: Frame, p: Parsers)
    requires WellFormed(f)
    ensures Clean(f, p).Err? <==> exists g: Field :: Duplicated(f.columns, Name(g))
    ensures Clean(f, p).Err? ==> Duplicated(f.columns, Name(Clean(f, p).error.field))
  {
    var d := CleanDates(f, p.date);
    if d.Ok? {
      NumericFieldsDistinct();
      CleanNumericsSpec(d.value, NumericFields, p.number);
    }
    if exists g: Field :: Duplicated(f.columns, Name(g)) {
      var g: Field :| Duplicated(f.columns, Name(g));
      if g != Date && g != CowId {
        assert NumericFields[NumericIndex(g)] == g;
      }
    }
  }

  /** The place of a numeric field in the processing order. */
  function NumericIndex(g: Field): (m: nat)
    requires g != Date && g != CowId
    ensures m < |NumericFields| && NumericFields[m] == g
  {
    match g
    case MilkYield => 0
    case FatPercentage => 1
    case ProteinPercentage => 2
    case FeedIntake => 3
  }

  /** A successful cleaning keeps every column, in order, and keeps exactly the rows `KeptRows` names, each cell as `CleanedCell` says. */
  lemma CleanSpec(f: Frame, p: Parsers)
    requires WellFormed(f) && Clean(f, p).Ok?
    ensures WellFormed(Clean(f, p).value) && Clean(f, p).value.columns == f.columns
    ensures Clean(f, p).value.height == |KeptRows(f, p.date)|
    ensures forall j, k :: 0 <= j < |f.columns| && 0 <= k < |KeptRows(f, p.date)| ==>
      Clean(f, p).value.cells[j][k] == CleanedCell(f.columns[j], f.cells[j], KeptRows(f, p.date)[k], p)
  {
    forall j, k | 0 <= j < |f.columns| && 0 <= k < |KeptRows(f, p.date)|
      ensures Clean(f, p).value.cells[j][k] == CleanedCell(f.columns[j], f.cells[j], KeptRows(f, p.date)[k], p)
    {
      CleanCell(f, p, j, k);
    }
  }

  /** One cell of `CleanSpec`, followed through the three steps. */
  lemma CleanCell(f: Frame, p: Parsers, j: nat, k: nat)
    requires WellFormed(f) && Clean(f, p).Ok?
    requires j < |f.columns| && k < |KeptRows(f, p.date)|
    ensures Clean(f, p).value.cells[j][k] == CleanedCell(f.columns[j], f.cells[j], KeptRows(f, p.date)[k], p)
  {
    var rows := KeptRows(f, p.date);
    var name := f.columns[j];
    var f1 := CleanDates(f, p.date).value;
    var x1 := f1.cells[j][k];
    assert x1 == if name == Name(Date) then DateCell(f.cells[j], rows[k], p.date) else f.cells[j][rows[k]];
    NumericFieldsDistinct();
    CleanNumericsSpec(f1, NumericFields, p.number);
    var f2 := CleanNumerics(f1, NumericFields, p.number).value;
    var x2 := f2.cells[j][k];
    assert x2 == if NamedIn(name, NumericFields) then Coerce(ToNumber(p.number), x1) else x1;
    var g := CleanCowIds(f2, p.show).value;
    assert Clean(f, p).value == g;
    assert g.cells[j][k] == if name == Name(CowId) then Coerce(ToId(p.show), x2) else x2;
    if name == Name(Date) || name == Name(CowId) {
      NotNumericName(name);
    }
  }

  lemma NotNumericName(name: string)
    requires name == Name(Date) || name == Name(CowId)
    ensures !NamedIn(name, NumericFields)
  {
    forall m | 0 <= m < |NumericFields|
      ensures Name(NumericFields[m]) != name
    {
      assert NumericFields[m] != Date && NumericFields[m] != CowId;
    }
  }

  /** A row survives exactly when its date parses (the `dropna` on `date`). */
  lemma KeptRowsAreParsed(f: Frame, parse: DateParser, c: nat)
    requires WellFormed(f) && Find(f.columns, Name(Date)) == Some(c)
    ensures forall i :: 0 <= i < f.height ==> (i in KeptRows(f, parse) <==> parse(f.cells[c], i).Some?)
  {
    var parsed := seq(f.height, i requires 0 <= i < f.height => parse(f.cells[c], i));
    assert KeptRows(f, parse) == Survivors(parsed);
    forall i | 0 <= i < f.height && i in KeptRows(f, parse)
      ensures parse(f.cells[c], i).Some?
    {
      var k :| 0 <= k < |Survivors(parsed)| && Survivors(parsed)[k] == i;
      assert parsed[i].Some?;
    }
  }

  /** Every surviving date cell holds a `YYYY-MM-DD` rendering of the date the parser found. */
  lemma DatesAreIso(f: Frame, p: Parsers, c: nat, k: nat)
    requires WellFormed(f) && Clean(f, p).Ok?
    requires c < |f.columns| && f.columns[c] == Name(Date)
    requires k < Clean(f, p).value.height
    ensures var i := KeptRows(f, p.date)[k];
      p.date(f.cells[c], i).Some?
      && Clean(f, p).value.cells[c][k] == Text(FormatIso(p.date(f.cells[c], i).value))
      && ParseIso(Clean(f, p).value.cells[c][k].text) == Some(p.date(f.cells[c], i).value.date)
  {
    CleanSpec(f, p);
    CleanFailsOnDuplicates(f, p);
    assert Locate(f.columns, Date).Ok?;
    assert Find(f.columns, Name(Date)) == Some(c);
    var i := KeptRows(f, p.date)[k];
    KeptRowsAreParsed(f, p.date, c);
    assert i in KeptRows(f, p.date);
    ParseFormat(p.date(f.cells[c], i).value);
  }

  /** Without a `date` column no row is dropped, and a column with no canonical name is returned as it was. */
  lemma WithoutDateNothingDropped(f: Frame, p: Parsers)
    requires WellFormed(f) && Clean(f, p).Ok? && Name(Date) !in f.columns
    ensures Clean(f, p).value.height == f.height
    ensures forall j :: 0 <= j < |f.columns| && FieldNamed(f.columns[j]).None? ==> Clean(f, p).value.cells[j] == f.cells[j]
  {
    CleanSpec(f, p);
    var g := Clean(f, p).value;
    assert KeptRows(f, p.date) == AllRows(f.height);
    forall j | 0 <= j < |f.columns| && FieldNamed(f.columns[j]).None?
      ensures g.cells[j] == f.cells[j]
    {
      assert !NamedIn(f.columns[j], NumericFields);
      forall k | 0 <= k < f.height
        ensures g.cells[j][k] == f.cells[j][k]
      {
        assert g.cells[j][k] == CleanedCell(f.columns[j], f.cells[j], k, p);
      }
    }
  }

  /** A frame without any canonical column passes through cleaning unchanged. */
  lemma NoCanonicalColumnUnchanged(f: Frame, p: Parsers)
    requires WellFormed(f) && forall j :: 0 <= j < |f.columns| ==> FieldNamed(f.columns[j]).None?
    ensures Clean(f, p) == Ok(f)
  {
    assert Name(Date) !in f.columns;
    CleanFailsOnDuplicates(f, p);
    WithoutDateNothingDropped(f, p);
    CleanSpec(f, p);
    var g := Clean(f, p).value;
    assert g.cells == f.cells;
  }

  /**
   * Parsers that read back what cleaning writes: the date parser reads every
   * cell of a column whose cells are all `YYYY-MM-DD` texts of days whose
   * midnight is a timestamp (pandas infers one format per column, so a
   * column that mixes formats is not covered), `to_numeric` keeps a number,
   * and `str` keeps a text.
   */
  ghost predicate ReadsBack(p: Parsers)
  {
    && (forall column: seq<Cell>, i: nat ::
          i < |column| && (forall k :: 0 <= k < |column| ==> column[k].Text? && IsTimestampDay(column[k].text)) ==>
          p.date(column, i).Some? && p.date(column, i).value.date == ParseIso(column[i].text).value)
    && (forall v: real :: p.number(Number(v)) == Some(v))
    && (forall t: string :: p.show(Text(t)) == t)
  }

  /** Parsers meeting `ReadsBack` exist, so the lemmas that assume it are not vacuous. */
  lemma ReadsBackIsSatisfiable()
    ensures exists p: Parsers :: ReadsBack(p)
  {
    var date := (column: seq<Cell>, i: nat) =>
      if i < |column| && column[i].Text? && IsTimestampDay(column[i].text)
      then var t: Timestamp := Instant(ParseIso(column[i].text).value, 0); Some(t)
      else None;
    var number := (x: Cell) => if x.Number? then Some(x.value) else None;
    var show := (x: Cell) => if x.Text? then x.text else "";
    var p := Parsers(date, number, show);
    assert ReadsBack(p);
  }

  /** The form a cell of the column `name` has once cleaned. */
  predicate CleanShape(name: string, x: Cell)
  {
    if name == Name(Date) then x.Text? && IsTimestampDay(x.text)
    else if NamedIn(name, NumericFields) then x.Number?
    else if name == Name(CowId) then x.Text? && StripDotZero(x.text) == x.text
    else true
  }

  /** A frame in normalised form: no repeated canonical name, and every canonical column already cleaned. */
  predicate IsCleanFrame(f: Frame)
  {
    && WellFormed(f)
    && (forall g: Field :: !Duplicated(f.columns, Name(g)))
    && forall j, i :: 0 <= j < |f.columns| && 0 <= i < f.height ==> CleanShape(f.columns[j], f.cells[j][i])
  }

  /** When every date parsed, no row is dropped. */
  lemma {:induction false} AllSurvive(parsed: seq<Option<Timestamp>>)
    requires forall i :: 0 <= i < |parsed| ==> parsed[i].Some?
    ensures Survivors(parsed) == AllRows(|parsed|)
  {
    if parsed != [] {
      var n := |parsed| - 1;
      AllSurvive(parsed[..n]);
      assert AllRows(n) + [n] == AllRows(|parsed|);
    }
  }

  /** Cleaning a frame already in normalised form, with parsers that read their own output back, changes nothing. */
  lemma CleanFixesCleanFrames(f: Frame, p: Parsers)
    requires IsCleanFrame(f) && ReadsBack(p)
    ensures Clean(f, p) == Ok(f)
  {
    CleanFailsOnDuplicates(f, p);
    KeepsAllRows(f, p);
    var rows := KeptRows(f, p.date);
    CleanSpec(f, p);
    var g := Clean(f, p).value;
    forall j | 0 <= j < |f.columns|
      ensures g.cells[j] == f.cells[j]
    {
      forall i | 0 <= i < f.height
        ensures g.cells[j][i] == f.cells[j][i]
      {
        assert rows[i] == i;
        assert forall k :: 0 <= k < |f.cells[j]| ==> CleanShape(f.columns[j], f.cells[j][k]);
        CleanCellFixed(f.columns[j], f.cells[j], i, p);
      }
    }
    assert g.cells == f.cells;
  }

  lemma KeepsAllRows(f: Frame, p: Parsers)
    requires IsCleanFrame(f) && ReadsBack(p)
    ensures KeptRows(f, p.date) == AllRows(f.height)
  {
    match Find(f.columns, Name(Date))
    case None =>
    case Some(c) =>
      var parsed := seq(f.height, i requires 0 <= i < f.height => p.date(f.cells[c], i));
      assert forall k :: 0 <= k < |f.cells[c]| ==> CleanShape(f.columns[c], f.cells[c][k]);
      forall i | 0 <= i < f.height
        ensures parsed[i].Some?
      {
        assert CleanShape(f.columns[c], f.cells[c][i]);
      }
      AllSurvive(parsed);
  }

  lemma CleanCellFixed(name: string, column: seq<Cell>, i: nat, p: Parsers)
    requires i < |column| && ReadsBack(p)
    requires forall k :: 0 <= k < |column| ==> CleanShape(name, column[k])
    ensures CleanedCell(name, column, i, p) == column[i]
  {
    if name == Name(Date) {
      var t := p.date(column, i).value;
      FormatParse(column[i].text, t);
    }
  }

  /** An integer id that pandas read as a float (`42.0`) is restored to the text of the integer (`42`), which is left as it is. */
  lemma StripRestoresIntegerIds(d: string)
    requires d != [] && forall i :: 0 <= i < |d| ==> IsDigit(d[i])
    ensures StripDotZero(d + ".0") == d
    ensures StripDotZero(d) == d
  {
    var s := d + ".0";
    assert s[|s| - 2..] == ".0";
    assert s[..|s| - 2] == d;
    if |d| >= 2 { assert d[|d| - 2..][0] == d[|d| - 2]; }
    if |d| >= 3 { assert d[|d| - 3..][2] == d[|d| - 1]; }
  }

  /** One `.0` goes per application, so the step is not idempotent: `1.0.0` becomes `1.0`, then `1`. */
  lemma StripIsNotIdempotent()
    ensures StripDotZero("42.0") == "42"
    ensures StripDotZero("1.0.0") == "1.0"
    ensures StripDotZero(StripDotZero("1.0.0")) == "1"
    ensures StripDotZero("x.0\n") == "x\n"
  {
    assert "1.0.0"[3..] == ".0" && "1.0.0"[..3] == "1.0";
    assert "1.0"[1..] == ".0" && "1.0"[..1] == "1";
    assert "42.0"[2..] == ".0" && "42.0"[..2] == "42";
    assert !EndsWith("x.0\n", ".0");
    assert "x.0\n"[1..] == ".0\n" && "x.0\n"[..1] == "x";
  }
}
