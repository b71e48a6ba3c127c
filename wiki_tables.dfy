/**
 * `WikiTableParser` (scripts/make_amsterdam_locations.py): an event-driven collector of the
 * `wikitable`-classed tables of an HTML page, as lists of rows of normalised cell texts.
 *
 * The HTML tokenizer that produces the events is not modelled: a page is given as the
 * sequence of start-tag, end-tag and text events the tokenizer would report.
 */
module WikiTables {
  import opened Wrappers
  import opened Text
  import opened Collections
  import opened CellText

  type Row = seq<string>
  type Table = seq<Row>

  /** One `(name, value)` attribute pair; a value-less attribute has value `None`. */
  datatype Attr = Attr(name: string, value: Option<string>)

  datatype Event =
    | StartTag(tag: string, attrs: seq<Attr>)
    | EndTag(tag: string)
    | Data(text: string)

  /** The parser's fields. */
  datatype ParserState = ParserState(
    tables: seq<Table>,
    capturing: bool,
    tableDepth: int,
    currentTable: Option<Table>,
    currentRow: Option<Row>,
    capturingCell: bool,
    cellBuffer: seq<string>)

  /** The fields as `__init__` sets them. */
  const Initial: ParserState := ParserState([], false, 0, None, None, false, [])

  /** `dict(attrs).get("class") or ""`: the last `class` attribute wins. */
  function ClassValue(attrs: seq<Attr>): string {
    var d := LastWins(seq(|attrs|, i requires 0 <= i < |attrs| => Some((attrs[i].name, attrs[i].value))));
    if "class" in d && d["class"].Some? then d["class"].value else ""
  }

  /** `"wikitable" in set(class_value.split())`. */
  predicate IsWikitable(attrs: seq<Attr>) {
    "wikitable" in Words(ClassValue(attrs))
  }

  predicate IsCellTag(tag: string) {
    tag == "td" || tag == "th"
  }

  /** `handle_starttag`. */
  function OnStartTag(s: ParserState, tag: string, attrs: seq<Attr>): ParserState {
    if tag == "table" then
      if !s.capturing && IsWikitable(attrs) then
        s.(capturing := true, tableDepth := 1, currentTable := Some([]))
      else if s.capturing then
        s.(tableDepth := s.tableDepth + 1)
      else
        s
    else if tag == "tr" && s.capturing then
      s.(currentRow := Some([]))
    else if IsCellTag(tag) && s.capturing && s.currentRow.Some? then
      s.(capturingCell := true, cellBuffer := [])
    else if tag == "br" && s.capturingCell then
      s.(cellBuffer := s.cellBuffer + [" "])
    else
      s
  }

  /** `handle_endtag`. */
  function OnEndTag(s: ParserState, tag: string): ParserState {
    if tag == "table" && s.capturing then TableClosed(s)
    else if tag == "tr" && s.capturing then RowClosed(s)
    else if IsCellTag(tag) && s.capturingCell then CellClosed(s)
    else s
  }

  /** A `</table>` while capturing: the outermost close stores a non-empty table. */
  function TableClosed(s: ParserState): ParserState {
    if s.tableDepth - 1 == 0 then
      var done := if s.currentTable.Some? && s.currentTable.value != []
                  then s.tables + [s.currentTable.value] else s.tables;
      s.(tables := done, capturing := false, tableDepth := 0, currentTable := None)
    else
      s.(tableDepth := s.tableDepth - 1)
  }

  /** A `</tr>` while capturing: a non-empty row joins the open table. */
  function RowClosed(s: ParserState): ParserState {
    var grown := if s.currentTable.Some? && s.currentRow.Some? && s.currentRow.value != []
                 then Some(s.currentTable.value + [s.currentRow.value]) else s.currentTable;
    s.(currentTable := grown, currentRow := None)
  }

  /** A `</td>` or `</th>` inside a cell: the buffered text, normalised, joins the row. */
  function CellClosed(s: ParserState): ParserState {
    var text := NormalizeCell(Concat(s.cellBuffer));
    var row := if s.currentRow.Some? then Some(s.currentRow.value + [text]) else None;
    s.(currentRow := row, capturingCell := false, cellBuffer := [])
  }

  /** `handle_data`. */
  function OnData(s: ParserState, text: string): ParserState {
    if s.capturingCell then s.(cellBuffer := s.cellBuffer + [text]) else s
  }

  function Step(s: ParserState, e: Event): ParserState {
    match e
    case StartTag(tag, attrs) => OnStartTag(s, tag, attrs)
    case EndTag(tag) => OnEndTag(s, tag)
    case Data(text) => OnData(s, text)
  }

  /** The state after the handlers have been called for each event in turn (`feed`). */
  function Run(s: ParserState, events: seq<Event>): ParserState
    decreases |events|
  {
    if events == [] then s else Run(Step(s, events[0]), events[1..])
  }

  predicate GoodRow(row: Row) {
    forall i :: 0 <= i < |row| ==> IsNormalCell(row[i])
  }

  /** Every row is non-empty and holds normalised cells. */
  predicate GoodTable(t: Table) {
    forall j :: 0 <= j < |t| ==> t[j] != [] && GoodRow(t[j])
  }

  /**
   * The parser's invariant: a table is being captured exactly when the depth is positive,
   * and then `_current_table` exists; every stored table is non-empty; every stored row is
   * non-empty; every stored cell is a normalised text.
   */
  predicate WellFormed(s: ParserState) {
    && (s.capturing ==> s.tableDepth >= 1 && s.currentTable.Some?)
    && (!s.capturing ==> s.tableDepth == 0 && s.currentTable.None?)
    && (forall k :: 0 <= k < |s.tables| ==> s.tables[k] != [] && GoodTable(s.tables[k]))
    && (s.currentTable.Some? ==> GoodTable(s.currentTable.value))
    && (s.currentRow.Some? ==> GoodRow(s.currentRow.value))
  }

  lemma InitialWellFormed()
    ensures WellFormed(Initial)
  {
  }

  lemma GoodRowAppend(row: Row, text: string)
    requires GoodRow(row) && IsNormalCell(text)
    ensures GoodRow(row + [text])
  {
    var r := row + [text];
    forall i | 0 <= i < |r|
      ensures IsNormalCell(r[i])
    {
      if i < |row| {
        assert r[i] == row[i];
      }
    }
  }

  lemma GoodTableAppend(t: Table, row: Row)
    requires GoodTable(t) && row != [] && GoodRow(row)
    ensures GoodTable(t + [row])
  {
    var r := t + [row];
    forall j | 0 <= j < |r|
      ensures r[j] != [] && GoodRow(r[j])
    {
      if j < |t| {
        assert r[j] == t[j];
      }
    }
  }

  lemma TablesAppend(tables: seq<Table>, t: Table)
    requires forall k :: 0 <= k < |tables| ==> tables[k] != [] && GoodTable(tables[k])
    requires t != [] && GoodTable(t)
    ensures var r := tables + [t];
            forall k :: 0 <= k < |r| ==> r[k] != [] && GoodTable(r[k])
  {
    var r := tables + [t];
    forall k | 0 <= k < |r|
      ensures r[k] != [] && GoodTable(r[k])
    {
      if k < |tables| {
        assert r[k] == tables[k];
      }
    }
  }

  lemma OnEndTagKeepsWellFormed(s: ParserState, tag: string)
    requires WellFormed(s)
    ensures WellFormed(OnEndTag(s, tag))
  {
    if tag == "table" && s.capturing {
      if s.tableDepth - 1 == 0 && s.currentTable.value != [] {
        TablesAppend(s.tables, s.currentTable.value);
      }
    } else if tag == "tr" && s.capturing {
      if s.currentRow.Some? && s.currentRow.value != [] {
        GoodTableAppend(s.currentTable.value, s.currentRow.value);
      }
    } else if IsCellTag(tag) && s.capturingCell && s.currentRow.Some? {
      NormalizeCellIsNormal(Concat(s.cellBuffer));
      GoodRowAppend(s.currentRow.value, NormalizeCell(Concat(s.cellBuffer)));
    }
  }

  lemma StepKeepsWellFormed(s: ParserState, e: Event)
    requires WellFormed(s)
    ensures WellFormed(Step(s, e))
  {
    if e.EndTag? {
      OnEndTagKeepsWellFormed(s, e.tag);
    }
  }

  lemma StartTagKeepsWellFormed(s: ParserState, tag: string, attrs: seq<Attr>)
    requires WellFormed(s)
    ensures WellFormed(OnStartTag(s, tag, attrs))
  {
    StepKeepsWellFormed(s, StartTag(tag, attrs));
  }

  lemma DataKeepsWellFormed(s: ParserState, text: string)
    requires WellFormed(s)
    ensures WellFormed(OnData(s, text))
  {
    StepKeepsWellFormed(s, Data(text));
  }

  lemma {:induction false} RunKeepsWellFormed(s: ParserState, events: seq<Event>)
    requires WellFormed(s)
    ensures WellFormed(Run(s, events))
    decreases |events|
  {
    if events != [] {
      StepKeepsWellFormed(s, events[0]);
      RunKeepsWellFormed(Step(s, events[0]), events[1..]);
    }
  }

  /** Whatever page is fed, the collected tables are non-empty lists of non-empty rows of normalised cells. */
  lemma ParsedTablesAreClean(events: seq<Event>)
    ensures var tables := Run(Initial, events).tables;
            forall k :: 0 <= k < |tables| ==> tables[k] != [] && GoodTable(tables[k])
  {
    RunKeepsWellFormed(Initial, events);
  }

  /** Every cell of every collected row is a normalised text. */
  lemma ParsedRowClean(events: seq<Event>, k: nat, j: nat)
    requires k < |Run(Initial, events).tables| && j < |Run(Initial, events).tables[k]|
    ensures GoodRow(Run(Initial, events).tables[k][j])
  {
    ParsedTablesAreClean(events);
    assert GoodTable(Run(Initial, events).tables[k]);
  }

  /** Tables, once collected, are never changed or removed. */
  lemma {:induction false} RunKeepsTables(s: ParserState, events: seq<Event>)
    ensures s.tables <= Run(s, events).tables
    decreases |events|
  {
    if events != [] {
      RunKeepsTables(Step(s, events[0]), events[1..]);
    }
  }

  /**
   * Table tags inside a captured table: a nested `<table>` only deepens the capture, and
   * `</table>` ends the capture exactly when the depth returns to 0, storing the table
   * if it has a row.
   */
  lemma TableTagsTrackDepth(s: ParserState, attrs: seq<Attr>)
    requires WellFormed(s) && s.capturing
    ensures OnStartTag(s, "table", attrs) == s.(tableDepth := s.tableDepth + 1)
    ensures var e := OnEndTag(s, "table");
            && (e.capturing <==> s.tableDepth > 1)
            && (e.capturing ==> e == s.(tableDepth := s.tableDepth - 1))
            && (!e.capturing ==> e.tableDepth == 0 && e.currentTable == None
                                 && e.tables == s.tables + (if s.currentTable.value == [] then [] else [s.currentTable.value]))
  {
  }

  /**
   * Outside a captured table no event stores a table. A `wikitable`-classed `<table>` changes
   * the state, and so does a cell that was left open when its table closed: its text and line
   * breaks are still buffered and its `</td>` or `</th>` still ends it. Nothing else does.
   */
  lemma OutsideTablesOnlyWikitableCounts(s: ParserState, e: Event)
    requires WellFormed(s) && !s.capturing
    ensures Step(s, e).tables == s.tables
    ensures Step(s, e) != s <==>
              || (e.StartTag? && e.tag == "table" && IsWikitable(e.attrs))
              || (s.capturingCell && (e.Data? || (e.StartTag? && e.tag == "br") || (e.EndTag? && IsCellTag(e.tag))))
  {
  }

  /**
   * `<table class="wikitable"><tr><td></table>` closes the table with its cell still open:
   * nothing is stored, and text that follows is buffered for a cell no table will hold.
   */
  lemma CellLeftOpen(attrs: seq<Attr>, y: string)
    requires IsWikitable(attrs)
    ensures var s := Run(Initial, [StartTag("table", attrs), StartTag("tr", []), StartTag("td", []), EndTag("table")]);
            && WellFormed(s) && !s.capturing && s.capturingCell && s.tables == []
            && Step(s, Data(y)) == s.(cellBuffer := s.cellBuffer + [y])
  {
    var events := [StartTag("table", attrs), StartTag("tr", []), StartTag("td", []), EndTag("table")];
    var s1 := Step(Initial, events[0]);
    var s2 := Step(s1, events[1]);
    var s3 := Step(s2, events[2]);
    assert s3.capturing && s3.tableDepth == 1 && s3.capturingCell && s3.currentTable == Some([]);
    assert Run(Initial, events) == Run(s1, events[1..]);
    assert Run(s1, events[1..]) == Run(s2, events[2..]);
    assert Run(s2, events[2..]) == Run(s3, events[3..]);
    assert Run(s3, events[3..]) == Step(s3, events[3]);
  }

  /** Text outside a cell is ignored. */
  lemma DataOutsideCellIgnored(s: ParserState, text: string)
    requires !s.capturingCell
    ensures OnData(s, text) == s
  {
  }

  /**
   * A cell `<td>a<br>b</td>` inside an open row adds exactly one cell, the normalised
   * text with the line break read as a space, and leaves every other field as it was.
   */
  lemma CellWithBreak(s: ParserState, a: string, b: string)
    requires s.capturing && s.currentRow.Some?
    ensures var events := [StartTag("td", []), Data(a), StartTag("br", []), Data(b), EndTag("td")];
            Run(s, events) == s.(currentRow := Some(s.currentRow.value + [NormalizeCell(a + " " + b)]),
                                 capturingCell := false, cellBuffer := [])
  {
    var opening := [StartTag("td", []), Data(a), StartTag("br", []), Data(b)];
    assert opening + [EndTag("td")] == [StartTag("td", []), Data(a), StartTag("br", []), Data(b), EndTag("td")];
    RunAppend(s, opening, [EndTag("td")]);
    OpenWithBreak(s, a, b);
    CloseRun(s.(capturingCell := true, cellBuffer := [a, " ", b]));
    ConcatThree(a, " ", b);
  }

  /** Opening a cell, text, a line break and more text leave the cell open with three pieces. */
  lemma OpenWithBreak(s: ParserState, a: string, b: string)
    requires s.capturing && s.currentRow.Some?
    ensures Run(s, [StartTag("td", []), Data(a), StartTag("br", []), Data(b)])
            == s.(capturingCell := true, cellBuffer := [a, " ", b])
  {
    var xs := [StartTag("td", []), Data(a)];
    var ys := [StartTag("br", []), Data(b)];
    assert xs + ys == [StartTag("td", []), Data(a), StartTag("br", []), Data(b)];
    RunAppend(s, xs, ys);
    OpenThenData(s, a);
    BreakThenData(s.(capturingCell := true, cellBuffer := [a]), b);
  }

  lemma OpenThenData(s: ParserState, a: string)
    requires s.capturing && s.currentRow.Some?
    ensures Run(s, [StartTag("td", []), Data(a)]) == s.(capturingCell := true, cellBuffer := [a])
  {
    RunOne(s, StartTag("td", []), [Data(a)]);
    assert [StartTag("td", [])] + [Data(a)] == [StartTag("td", []), Data(a)];
    OpenCell(s);
    var s1 := s.(capturingCell := true, cellBuffer := []);
    RunSingle(s1, Data(a));
    DataInCell(s1, a);
    assert s1.cellBuffer + [a] == [a];
  }

  lemma BreakThenData(s: ParserState, b: string)
    requires s.capturingCell
    ensures Run(s, [StartTag("br", []), Data(b)]) == s.(cellBuffer := s.cellBuffer + [" ", b])
  {
    RunOne(s, StartTag("br", []), [Data(b)]);
    assert [StartTag("br", [])] + [Data(b)] == [StartTag("br", []), Data(b)];
    BreakInCell(s);
    var s1 := s.(cellBuffer := s.cellBuffer + [" "]);
    RunSingle(s1, Data(b));
    DataInCell(s1, b);
    assert s1.cellBuffer + [b] == s.cellBuffer + [" ", b];
  }

  lemma CloseRun(s: ParserState)
    requires s.capturingCell && s.currentRow.Some?
    ensures Run(s, [EndTag("td")]) ==
            s.(currentRow := Some(s.currentRow.value + [NormalizeCell(Concat(s.cellBuffer))]),
               capturingCell := false, cellBuffer := [])
  {
    CellEndStep(s);
    RunSingle(s, EndTag("td"));
  }

  lemma RunOne(s: ParserState, e: Event, rest: seq<Event>)
    ensures Run(s, [e] + rest) == Run(Step(s, e), rest)
  {
    RunCons(s, [e] + rest);
    assert ([e] + rest)[1..] == rest;
  }

  lemma RunSingle(s: ParserState, e: Event)
    ensures Run(s, [e]) == Step(s, e)
  {
    assert [e][1..] == [];
  }

  lemma RunAppend(s: ParserState, xs: seq<Event>, ys: seq<Event>)
    ensures Run(s, xs + ys) == Run(Run(s, xs), ys)
    decreases |xs|
  {
    if xs == [] {
      assert xs + ys == ys;
    } else {
      assert (xs + ys)[0] == xs[0] && (xs + ys)[1..] == xs[1..] + ys;
      RunAppend(Step(s, xs[0]), xs[1..], ys);
    }
  }

  lemma ConcatThree(x: string, y: string, z: string)
    ensures Concat([x, y, z]) == x + y + z
  {
    var parts := [x, y, z];
    assert parts[1..] == [y, z];
    assert parts[1..][1..] == [z];
    assert Concat([z]) == z + Concat([]);
    assert Concat([y, z]) == y + Concat([z]);
  }

  lemma OpenCell(s: ParserState)
    requires s.capturing && s.currentRow.Some?
    ensures Step(s, StartTag("td", [])) == s.(capturingCell := true, cellBuffer := [])
  {
    assert IsCellTag("td") && "td" != "table" && "td" != "tr";
  }

  lemma DataInCell(s: ParserState, text: string)
    requires s.capturingCell
    ensures Step(s, Data(text)) == s.(cellBuffer := s.cellBuffer + [text])
  {
  }

  lemma BreakInCell(s: ParserState)
    requires s.capturingCell
    ensures Step(s, StartTag("br", [])) == s.(cellBuffer := s.cellBuffer + [" "])
  {
    assert !IsCellTag("br") && "br" != "table" && "br" != "tr";
  }

  lemma CellEndStep(s: ParserState)
    requires s.capturingCell
    ensures Step(s, EndTag("td")) ==
            s.(currentRow := if s.currentRow.Some? then Some(s.currentRow.value + [NormalizeCell(Concat(s.cellBuffer))]) else None,
               capturingCell := false, cellBuffer := [])
  {
    assert IsCellTag("td") && "td" != "table" && "td" != "tr";
  }

  lemma RunCons(s: ParserState, events: seq<Event>)
    requires events != []
    ensures Run(s, events) == Run(Step(s, events[0]), events[1..])
  {
  }

  /** The parser object; its methods are the three handlers. */
  class WikiTableParser {
    var tables: seq<Table>
    var capturing: bool
    var tableDepth: int
    var currentTable: Option<Table>
    var currentRow: Option<Row>
    var capturingCell: bool
    var cellBuffer: seq<string>

    function State(): ParserState
      reads this
    {
      ParserState(tables, capturing, tableDepth, currentTable, currentRow, capturingCell, cellBuffer)
    }

    ghost predicate Valid()
      reads this
    {
      WellFormed(State())
    }

    constructor ()
      ensures State() == Initial && Valid()
    {
      tables := [];
      capturing := false;
      tableDepth := 0;
      currentTable := None;
      currentRow := None;
      capturingCell := false;
      cellBuffer := [];
    }

    method HandleStartTag(tag: string, attrs: seq<Attr>)
      requires Valid()
      modifies this
      ensures State() == OnStartTag(old(State()), tag, attrs) && Valid()
    {
      StartTagKeepsWellFormed(State(), tag, attrs);
      if tag == "table" {
        var classes := Words(ClassValue(attrs));
        if !capturing && "wikitable" in classes {
          capturing := true;
          tableDepth := 1;
          currentTable := Some([]);
        } else if capturing {
          tableDepth := tableDepth + 1;
        }
      } else if tag == "tr" && capturing {
        currentRow := Some([]);
      } else if IsCellTag(tag) && capturing && currentRow.Some? {
        capturingCell := true;
        cellBuffer := [];
      } else if tag == "br" && capturingCell {
        cellBuffer := cellBuffer + [" "];
      }
    }

    method HandleEndTag(tag: string)
      requires Valid()
      modifies this
      ensures State() == OnEndTag(old(State()), tag) && Valid()
    {
      OnEndTagKeepsWellFormed(State(), tag);
      if tag == "table" && capturing {
        CloseTable();
      } else if tag == "tr" && capturing {
        CloseRow();
      } else if IsCellTag(tag) && capturingCell {
        CloseCell();
      }
    }

    /** The `table` branch of `handle_endtag`. */
    method CloseTable()
      modifies this
      ensures State() == TableClosed(old(State()))
    {
      tableDepth := tableDepth - 1;
      if tableDepth == 0 {
        if currentTable.Some? && currentTable.value != [] {
          tables := tables + [currentTable.value];
        }
        capturing := false;
        currentTable := None;
      }
    }

    /** The `tr` branch of `handle_endtag`. */
    method CloseRow()
      modifies this
      ensures State() == RowClosed(old(State()))
    {
      if currentTable.Some? && currentRow.Some? && currentRow.value != [] {
        currentTable := Some(currentTable.value + [currentRow.value]);
      }
      currentRow := None;
    }

    /** The `td`/`th` branch of `handle_endtag`. */
    method CloseCell()
      modifies this
      ensures State() == CellClosed(old(State()))
    {
      ghost var before := State();
      assert before.cellBuffer == cellBuffer && before.currentRow == currentRow;
      var text := NormalizeCell(Concat(cellBuffer));
      if currentRow.Some? {
        currentRow := Some(currentRow.value + [text]);
      }
      capturingCell := false;
      cellBuffer := [];
    }

    method HandleData(data: string)
      requires Valid()
      modifies this
      ensures State() == OnData(old(State()), data) && Valid()
    {
      DataKeepsWellFormed(State(), data);
      if capturingCell {
        cellBuffer := cellBuffer + [data];
      }
    }

    /** Hands each event to its handler, in order. */
    method Feed(events: seq<Event>)
      requires Valid()
      modifies this
      ensures State() == Run(old(State()), events) && Valid()
    {
      var i := 0;
      while i < |events|
        invariant 0 <= i <= |events|
        invariant Valid()
        invariant Run(State(), events[i..]) == Run(old(State()), events)
        decreases |events| - i
      {
        assert events[i..] == [events[i]] + events[i + 1..];
        match events[i] {
          case StartTag(tag, attrs) => HandleStartTag(tag, attrs);
          case EndTag(tag) => HandleEndTag(tag);
          case Data(text) => HandleData(text);
        }
        i := i + 1;
      }
    }
  }
}
