/**
 * zypper's pipe tables: columns located by the header row, data rows read by
 * those positions, and the update list made from three of the columns. The
 * list depends on the column names only, not on where the columns stand.
 */
module ZypperTable {
  import opened Text
  import opened OrderedDict

  type Header = map<string, nat>

  // ------------------------------------------------------------------- cells

  function StripAll(cells: seq<string>): (r: seq<string>)
    ensures |r| == |cells| && forall i :: 0 <= i < |r| ==> r[i] == Strip(cells[i])
  {
    if cells == [] then [] else [Strip(cells[0])] + StripAll(cells[1..])
  }

  function Cells(line: string): (cells: seq<string>)
    ensures cells != []
  {
    StripAll(SplitOn(line, '|'))
  }

  /** The cells of a joined row are its parts, trimmed. */
  lemma CellsOfJoin(parts: seq<string>)
    requires parts != [] && forall i :: 0 <= i < |parts| ==> '|' !in parts[i]
    ensures Cells(Join("|", parts)) == StripAll(parts)
  {
    SplitJoin(parts, '|');
  }

  function Position(cells: seq<string>, w: string): (i: nat)
    ensures i <= |cells|
    ensures i < |cells| ==> cells[i] == w
    ensures i == |cells| <==> w !in cells
    ensures forall j :: 0 <= j < i ==> cells[j] != w
  {
    if cells == [] then 0 else if cells[0] == w then 0 else 1 + Position(cells[1..], w)
  }

  /** The row that sets the positions; with nothing wanted the positions stay empty and no row ever does. */
  predicate IsHeader(cells: seq<string>, wanted: seq<string>) {
    wanted != [] && forall i :: 0 <= i < |wanted| ==> wanted[i] in cells
  }

  function Locate(cells: seq<string>, wanted: seq<string>): Header {
    map w | w in wanted :: Position(cells, w)
  }

  predicate Dashes(cell: string) {
    cell != "" && forall i :: 0 <= i < |cell| ==> cell[i] == '-' || cell[i] == '+'
  }

  predicate IsSeparator(cells: seq<string>) {
    forall i :: 0 <= i < |cells| ==> Dashes(cells[i])
  }

  predicate RepeatsHeader(cells: seq<string>, h: Header) {
    exists w :: w in h && h[w] < |cells| && cells[h[w]] == w
  }

  // ------------------------------------------------------------------- table

  /** The first header row among the lines with a bar, or the number of lines. */
  function HeaderLine(lines: seq<string>, wanted: seq<string>): nat {
    if lines == [] then 0
    else if '|' in lines[0] && IsHeader(Cells(lines[0]), wanted) then 0
    else 1 + HeaderLine(lines[1..], wanted)
  }

  predicate IsData(line: string, h: Header) {
    '|' in line && !IsSeparator(Cells(line)) && !RepeatsHeader(Cells(line), h)
  }

  function DataRows(lines: seq<string>, h: Header): seq<seq<string>> {
    if lines == [] then []
    else (if IsData(lines[0], h) then [Cells(lines[0])] else []) + DataRows(lines[1..], h)
  }

  lemma {:induction false} HeaderLineBound(lines: seq<string>, wanted: seq<string>)
    ensures HeaderLine(lines, wanted) <= |lines|
    ensures HeaderLine(lines, wanted) < |lines| ==>
      '|' in lines[HeaderLine(lines, wanted)] && IsHeader(Cells(lines[HeaderLine(lines, wanted)]), wanted)
  {
    if lines != [] {
      HeaderLineBound(lines[1..], wanted);
    }
  }

  /** What is left of the scan: the header once found, and the rows after it. */
  function TableFrom(lines: seq<string>, wanted: seq<string>, header: Option<Header>, data: seq<seq<string>>)
    : (Option<Header>, seq<seq<string>>)
    decreases |lines|
  {
    match header
    case Some(h) => (header, data + DataRows(lines, h))
    case None =>
      if lines == [] then (None, data)
      else if '|' in lines[0] && IsHeader(Cells(lines[0]), wanted) then
        TableFrom(lines[1..], wanted, Some(Locate(Cells(lines[0]), wanted)), data)
      else TableFrom(lines[1..], wanted, None, data)
  }

  function Table(lines: seq<string>, wanted: seq<string>): (Option<Header>, seq<seq<string>>) {
    TableFrom(lines, wanted, None, [])
  }

  /** What one line adds to the scan. */
  function AfterLine(line: string, wanted: seq<string>, header: Option<Header>, data: seq<seq<string>>)
    : (Option<Header>, seq<seq<string>>)
  {
    match header
    case Some(h) => (header, if IsData(line, h) then data + [Cells(line)] else data)
    case None =>
      if '|' in line && IsHeader(Cells(line), wanted) then (Some(Locate(Cells(line), wanted)), data) else (None, data)
  }

  lemma TableStep(lines: seq<string>, wanted: seq<string>, header: Option<Header>, data: seq<seq<string>>)
    requires lines != []
    ensures
      var (h, d) := AfterLine(lines[0], wanted, header, data);
      TableFrom(lines, wanted, header, data) == TableFrom(lines[1..], wanted, h, d)
  {
    if header.Some? {
      var h := header.value;
      var rest := DataRows(lines[1..], h);
      hide IsData, Cells;
      if IsData(lines[0], h) {
        Assoc(data, [Cells(lines[0])], rest);
      } else {
        assert [] + rest == rest;
      }
    }
  }

  method ReadTable(text: string, wanted: seq<string>) returns (header: Option<Header>, data: seq<seq<string>>)
    ensures (header, data) == Table(SplitLines(text), wanted)
  {
    hide IsHeader, Cells, Locate, IsSeparator, RepeatsHeader, TableFrom;
    header, data := None, [];
    var lines := SplitLines(text);
    for i := 0 to |lines|
      invariant TableFrom(lines[i..], wanted, header, data) == Table(lines, wanted)
    {
      TableStep(lines[i..], wanted, header, data);
      assert lines[i..][0] == lines[i] && lines[i..][1..] == lines[i + 1..];
      var line := lines[i];
      if '|' !in line {
        continue;
      }
      var cols := Cells(line);
      if header == None {
        if IsHeader(cols, wanted) {
          header := Some(Locate(cols, wanted));
        }
        continue;
      }
      if IsSeparator(cols) || RepeatsHeader(cols, header.value) {
        continue;
      }
      data := data + [cols];
    }
    assert lines[|lines|..] == [];
    TableEnd(header, data, wanted);
  }

  lemma TableEnd(header: Option<Header>, data: seq<seq<string>>, wanted: seq<string>)
    ensures TableFrom([], wanted, header, data) == (header, data)
  {
    assert data + [] == data;
  }

  // ----------------------------------------------------------------- updates

  const WANTED := ["Name", "Current", "Available"]

  datatype Update = Update(name: string, current: string, candidate: string)

  predicate Complete(h: Header) {
    "Name" in h && "Current" in h && "Available" in h
  }

  predicate Wide(row: seq<string>, h: Header)
    requires Complete(h)
  {
    h["Name"] < |row| && h["Current"] < |row| && h["Available"] < |row|
  }

  function UpdateOf(row: seq<string>, h: Header): Update
    requires Complete(h) && Wide(row, h)
  {
    Update(row[h["Name"]], row[h["Current"]], row[h["Available"]])
  }

  function UpdatesOf(rows: seq<seq<string>>, h: Header): seq<Update>
    requires Complete(h)
  {
    if rows == [] then []
    else (if Wide(rows[0], h) && rows[0][h["Name"]] != "" then [UpdateOf(rows[0], h)] else []) + UpdatesOf(rows[1..], h)
  }

  function Updates(lines: seq<string>): seq<Update> {
    var (header, rows) := Table(lines, WANTED);
    if header.Some? && Complete(header.value) then UpdatesOf(rows, header.value) else []
  }

  lemma {:induction false} TableHeader(lines: seq<string>, wanted: seq<string>, data: seq<seq<string>>)
    ensures var r := TableFrom(lines, wanted, None, data); var k := HeaderLine(lines, wanted);
      k <= |lines|
      && if k == |lines| then r == (None, data)
         else var h := Locate(Cells(lines[k]), wanted); r == (Some(h), data + DataRows(lines[k + 1..], h))
    decreases |lines|
  {
    if lines != [] {
      TableHeader(lines[1..], wanted, data);
    }
  }

  lemma LocateComplete(cells: seq<string>)
    requires IsHeader(cells, WANTED)
    ensures Complete(Locate(cells, WANTED))
    ensures forall w :: w in Locate(cells, WANTED) ==> w in WANTED && Locate(cells, WANTED)[w] < |cells|
  {
    assert WANTED[0] == "Name" && WANTED[1] == "Current" && WANTED[2] == "Available";
  }

  lemma TableComplete(lines: seq<string>)
    ensures Table(lines, WANTED).0.Some? ==> Complete(Table(lines, WANTED).0.value)
  {
    TableHeader(lines, WANTED, []);
    HeaderLineBound(lines, WANTED);
    var k := HeaderLine(lines, WANTED);
    if k < |lines| {
      LocateComplete(Cells(lines[k]));
    }
  }

  method ListUpdates(text: string) returns (updates: seq<Update>)
    ensures updates == Updates(SplitLines(text))
  {
    var header, rows := ReadTable(text, WANTED);
    updates := [];
    TableComplete(SplitLines(text));
    if header == None {
      return;
    }
    var h := header.value;
    hide Complete, Table;
    for i := 0 to |rows|
      invariant Complete(h) && updates + UpdatesOf(rows[i..], h) == UpdatesOf(rows, h)
    {
      assert rows[i..][0] == rows[i] && rows[i..][1..] == rows[i + 1..];
      var cols := rows[i];
      ghost var rest := UpdatesOf(rows[i + 1..], h);
      if !Wide(cols, h) || cols[h["Name"]] == "" {
        assert [] + rest == rest;
        continue;
      }
      Assoc(updates, [UpdateOf(cols, h)], rest);
      updates := updates + [Update(cols[h["Name"]], cols[h["Current"]], cols[h["Available"]])];
    }
    assert updates + [] == updates;
  }

  // ------------------------------------------------- what the update list means

  /** The cell of a row under the first header cell with this text. */
  function Under(hdr: seq<string>, row: seq<string>, w: string): Option<string> {
    var i := Position(hdr, w);
    if i < |hdr| && i < |row| then Some(row[i]) else None
  }

  function Triple(hdr: seq<string>, row: seq<string>): (Option<string>, Option<string>, Option<string>) {
    (Under(hdr, row, "Name"), Under(hdr, row, "Current"), Under(hdr, row, "Available"))
  }

  /** The row is wide enough, has a name, repeats none of the three header texts, and is not all dashes in the three cells. */
  predicate Good(t: (Option<string>, Option<string>, Option<string>)) {
    && t.0.Some? && t.1.Some? && t.2.Some?
    && t.0.value != "" && t.0.value != "Name" && t.1.value != "Current" && t.2.value != "Available"
    && !(Dashes(t.0.value) && Dashes(t.1.value) && Dashes(t.2.value))
  }

  function Listed(t: (Option<string>, Option<string>, Option<string>)): Update {
    Update(OrEmpty(t.0), OrEmpty(t.1), OrEmpty(t.2))
  }

  function OrEmpty(cell: Option<string>): string {
    if cell.Some? then cell.value else ""
  }

  /** A good row under these header cells. */
  predicate GoodIn(hdr: seq<string>, line: string) {
    '|' in line && Good(Triple(hdr, Cells(line)))
  }

  function Given(hdr: seq<string>, line: string): Update {
    Listed(Triple(hdr, Cells(line)))
  }

  function GivenAll(hdr: seq<string>, lines: seq<string>): (us: seq<Update>)
    ensures |us| == |lines| && forall i :: 0 <= i < |lines| ==> us[i] == Given(hdr, lines[i])
  {
    if lines == [] then [] else [Given(hdr, lines[0])] + GivenAll(hdr, lines[1..])
  }

  /** A good row is wide enough and its three cells are the listed ones. */
  lemma GoodCells(hdr: seq<string>, row: seq<string>)
    requires IsHeader(hdr, WANTED) && Good(Triple(hdr, row))
    ensures var h := Locate(hdr, WANTED);
      && Complete(h)
      && Wide(row, h)
      && row[h["Name"]] != ""
      && UpdateOf(row, h) == Listed(Triple(hdr, row))
  {
    LocateComplete(hdr);
  }

  lemma WantedNames(w: string)
    ensures w in WANTED <==> w == "Name" || w == "Current" || w == "Available"
  {
    assert WANTED[0] == "Name" && WANTED[1] == "Current" && WANTED[2] == "Available";
  }

  lemma GoodRow(hdr: seq<string>, line: string)
    requires IsHeader(hdr, WANTED) && '|' in line && Good(Triple(hdr, Cells(line)))
    ensures IsData(line, Locate(hdr, WANTED))
  {
    LocateComplete(hdr);
    var h, row := Locate(hdr, WANTED), Cells(line);
    GoodCells(hdr, row);
    hide Cells, Locate, Triple, IsHeader;
    forall w | w in h && h[w] < |row| ensures row[h[w]] != w {
      WantedNames(w);
    }
  }

  lemma DataRowFirst(lines: seq<string>, h: Header)
    requires lines != [] && IsData(lines[0], h)
    requires Complete(h) && Wide(Cells(lines[0]), h) && Cells(lines[0])[h["Name"]] != ""
    ensures UpdatesOf(DataRows(lines, h), h) == [UpdateOf(Cells(lines[0]), h)] + UpdatesOf(DataRows(lines[1..], h), h)
  {
    var row, rest := Cells(lines[0]), DataRows(lines[1..], h);
    hide Cells, IsData, Complete, UpdateOf;
    assert ([row] + rest)[0] == row && ([row] + rest)[1..] == rest;
  }

  /** A table of good rows lists exactly the three named cells of each row, in order. */
  lemma {:induction false} GoodRowsListed(hdr: seq<string>, lines: seq<string>)
    requires IsHeader(hdr, WANTED)
    requires forall i :: 0 <= i < |lines| ==> GoodIn(hdr, lines[i])
    ensures Complete(Locate(hdr, WANTED))
    ensures UpdatesOf(DataRows(lines, Locate(hdr, WANTED)), Locate(hdr, WANTED)) == GivenAll(hdr, lines)
  {
    LocateComplete(hdr);
    if lines != [] {
      assert GivenAll(hdr, lines) == [Listed(Triple(hdr, Cells(lines[0])))] + GivenAll(hdr, lines[1..]);
      assert GoodIn(hdr, lines[0]);
      hide *;
      GoodRow(hdr, lines[0]);
      GoodCells(hdr, Cells(lines[0]));
      GoodRowsListed(hdr, lines[1..]);
      DataRowFirst(lines, Locate(hdr, WANTED));
    }
  }

  predicate HeaderRow(line: string) {
    '|' in line && IsHeader(Cells(line), WANTED)
  }

  predicate NoHeaderIn(lines: seq<string>) {
    forall i :: 0 <= i < |lines| ==> !HeaderRow(lines[i])
  }

  /** A good row of the table with this header. */
  predicate GoodLine(hdr: string, row: string) {
    GoodIn(Cells(hdr), row)
  }

  /** Two good rows, of two tables, with the same three named cells. */
  predicate SameCells(hdr: string, row: string, hdr': string, row': string) {
    GoodLine(hdr, row) && GoodLine(hdr', row') && Triple(Cells(hdr), Cells(row)) == Triple(Cells(hdr'), Cells(row'))
  }

  /** Lines before the header that are no header themselves change nothing. */
  lemma {:induction false} HeaderAfter(before: seq<string>, line: string, rows: seq<string>)
    requires NoHeaderIn(before)
    requires HeaderRow(line)
    ensures HeaderLine(before + ([line] + rows), WANTED) == |before|
  {
    var all := before + ([line] + rows);
    if before == [] {
      assert all[0] == line;
    } else {
      assert all[0] == before[0] && all[1..] == before[1..] + ([line] + rows);
      HeaderAfter(before[1..], line, rows);
    }
  }

  /** The rows behind the first header row make the list. */
  lemma UpdatesBehind(before: seq<string>, line: string, rows: seq<string>)
    requires NoHeaderIn(before) && HeaderRow(line)
    ensures var h := Locate(Cells(line), WANTED);
      Complete(h) && Updates(before + ([line] + rows)) == UpdatesOf(DataRows(rows, h), h)
  {
    LocateComplete(Cells(line));
    HeaderAfter(before, line, rows);
    hide Cells, IsHeader, HeaderLine, Locate, DataRows, Table, UpdatesOf, Complete, HeaderRow, NoHeaderIn;
    LinesBehind(before, line, rows);
    TableFound(before + ([line] + rows), |before|);
  }

  lemma LinesBehind(before: seq<string>, line: string, rows: seq<string>)
    ensures var all := before + ([line] + rows);
      |before| < |all| && all[|before|] == line && all[|before| + 1..] == rows
  {
  }

  lemma TableFound(lines: seq<string>, k: nat)
    requires k < |lines| && HeaderLine(lines, WANTED) == k
    ensures var h := Locate(Cells(lines[k]), WANTED); Table(lines, WANTED) == (Some(h), DataRows(lines[k + 1..], h))
  {
    TableHeader(lines, WANTED, []);
    hide Cells, Locate, DataRows, TableFrom, HeaderLine;
    var h := Locate(Cells(lines[k]), WANTED);
    assert [] + DataRows(lines[k + 1..], h) == DataRows(lines[k + 1..], h);
  }

  /**
   * The update list of a table with good rows: the cells under Name, Current and
   * Available of every row, in order, whatever the other columns and the lines
   * before the header are.
   */
  lemma UpdatesAreNamedCells(before: seq<string>, line: string, rows: seq<string>)
    requires NoHeaderIn(before)
    requires HeaderRow(line)
    requires forall i :: 0 <= i < |rows| ==> GoodLine(line, rows[i])
    ensures var us := Updates(before + ([line] + rows));
      |us| == |rows| && forall i :: 0 <= i < |rows| ==> us[i] == Listed(Triple(Cells(line), Cells(rows[i])))
  {
    GoodRowsListed(Cells(line), rows);
    UpdatesBehind(before, line, rows);
    hide Cells, Triple, Good, IsHeader, Locate, DataRows, Updates, UpdatesOf, Complete, Listed;
  }

  /** The cell is there and is not the header text. */
  predicate Fresh(cell: Option<string>, w: string) {
    cell.Some? && cell.value != w
  }

  /** Some cell holds more than dashes and plus signs, or nothing at all. */
  predicate NoRule(cells: seq<string>) {
    exists i :: 0 <= i < |cells| && (cells[i] == "" || exists k :: 0 <= k < |cells[i]| && cells[i][k] !in "-+")
  }

  /** A line that lists an update: a bar, all three cells, a name, no cell the text of its header, and no rule. */
  predicate Lists(hdr: seq<string>, line: string) {
    && '|' in line && NoRule(Cells(line))
    && Fresh(Under(hdr, Cells(line), "Name"), "Name") && Under(hdr, Cells(line), "Name") != Some("")
    && Fresh(Under(hdr, Cells(line), "Current"), "Current")
    && Fresh(Under(hdr, Cells(line), "Available"), "Available")
  }

  function ListedRows(hdr: seq<string>, lines: seq<string>): (rows: seq<string>)
    ensures forall l :: l in rows <==> l in lines && Lists(hdr, l)
  {
    if lines == [] then [] else (if Lists(hdr, lines[0]) then [lines[0]] else []) + ListedRows(hdr, lines[1..])
  }

  lemma RuleMeans(cells: seq<string>)
    ensures NoRule(cells) <==> !IsSeparator(cells)
  {
    if !IsSeparator(cells) {
      var i :| 0 <= i < |cells| && !Dashes(cells[i]);
      NotDashes(cells[i]);
    }
    forall i | 0 <= i < |cells| ensures Dashes(cells[i]) <==> !(cells[i] == "" || exists k :: 0 <= k < |cells[i]| && cells[i][k] !in "-+") {
      NotDashes(cells[i]);
    }
  }

  lemma NotDashes(cell: string)
    ensures Dashes(cell) <==> !(cell == "" || exists k :: 0 <= k < |cell| && cell[k] !in "-+")
  {
  }

  predicate Repeats(hdr: seq<string>, row: seq<string>, w: string) {
    Under(hdr, row, w) == Some(w)
  }

  lemma RepeatsMeans(hdr: seq<string>, row: seq<string>)
    requires IsHeader(hdr, WANTED)
    ensures RepeatsHeader(row, Locate(hdr, WANTED)) <==>
      Repeats(hdr, row, "Name") || Repeats(hdr, row, "Current") || Repeats(hdr, row, "Available")
  {
    var h := Locate(hdr, WANTED);
    LocateComplete(hdr);
    forall w ensures w in h && h[w] < |row| && row[h[w]] == w <==> w in WANTED && Repeats(hdr, row, w) {
    }
    hide Locate, Repeats, IsHeader;
    assert forall w :: w in WANTED <==> w == "Name" || w == "Current" || w == "Available" by {
      forall w { WantedNames(w); }
    }
  }

  lemma UnderMeans(hdr: seq<string>, row: seq<string>)
    requires IsHeader(hdr, WANTED)
    ensures var h := Locate(hdr, WANTED);
      Complete(h)
      && (Wide(row, h) <==> Under(hdr, row, "Name").Some? && Under(hdr, row, "Current").Some? && Under(hdr, row, "Available").Some?)
      && (Wide(row, h) ==> Under(hdr, row, "Name") == Some(row[h["Name"]]) && UpdateOf(row, h) == Listed(Triple(hdr, row)))
  {
    LocateComplete(hdr);
  }

  /** The row is taken and its update listed exactly under the condition of Lists. */
  lemma ListsMeans(hdr: seq<string>, line: string)
    requires IsHeader(hdr, WANTED)
    ensures var h := Locate(hdr, WANTED);
      Complete(h) && (Lists(hdr, line) <==> IsData(line, h) && Wide(Cells(line), h) && Cells(line)[h["Name"]] != "")
    ensures Lists(hdr, line) ==> UpdateOf(Cells(line), Locate(hdr, WANTED)) == Given(hdr, line)
  {
    var row := Cells(line);
    RuleMeans(row);
    RepeatsMeans(hdr, row);
    UnderMeans(hdr, row);
    hide Cells, Locate, Under, IsHeader, NoRule, IsSeparator, RepeatsHeader, Wide, Complete, UpdateOf, Listed;
  }

  lemma {:induction false} ListedExactly(hdr: seq<string>, lines: seq<string>)
    requires IsHeader(hdr, WANTED)
    ensures Complete(Locate(hdr, WANTED))
    ensures UpdatesOf(DataRows(lines, Locate(hdr, WANTED)), Locate(hdr, WANTED)) == GivenAll(hdr, ListedRows(hdr, lines))
  {
    var h := Locate(hdr, WANTED);
    LocateComplete(hdr);
    if lines != [] {
      ListsMeans(hdr, lines[0]);
      ListedExactly(hdr, lines[1..]);
      OneRow(lines, h);
      GivenFirst(hdr, lines);
      hide Cells, Lists, IsData, UpdateOf, Locate, IsHeader, Given;
    }
  }

  lemma GivenFirst(hdr: seq<string>, lines: seq<string>)
    requires lines != []
    ensures GivenAll(hdr, ListedRows(hdr, lines))
         == (if Lists(hdr, lines[0]) then [Given(hdr, lines[0])] else []) + GivenAll(hdr, ListedRows(hdr, lines[1..]))
  {
    var more := ListedRows(hdr, lines[1..]);
    hide Lists, Given;
    assert ([lines[0]] + more)[1..] == more;
    assert [] + GivenAll(hdr, more) == GivenAll(hdr, more);
    assert [] + more == more;
  }

  lemma OneRow(lines: seq<string>, h: Header)
    requires lines != [] && Complete(h)
    ensures var row := Cells(lines[0]);
      UpdatesOf(DataRows(lines, h), h)
      == (if IsData(lines[0], h) && Wide(row, h) && row[h["Name"]] != "" then [UpdateOf(row, h)] else [])
         + UpdatesOf(DataRows(lines[1..], h), h)
  {
    var row, rest := Cells(lines[0]), DataRows(lines[1..], h);
    hide Cells, IsData, Complete, UpdateOf;
    assert ([row] + rest)[0] == row && ([row] + rest)[1..] == rest;
    assert [] + rest == rest;
    assert [] + UpdatesOf(rest, h) == UpdatesOf(rest, h);
  }

  /**
   * The update list of any output: nothing without a header row; else one update
   * for each line after the first header row that lists one, in order, with the
   * cells under the three names. All other lines change nothing.
   */
  lemma UpdatesExactly(before: seq<string>, line: string, rows: seq<string>)
    requires NoHeaderIn(before)
    ensures Updates(before) == []
    ensures HeaderRow(line) ==> Updates(before + ([line] + rows)) == GivenAll(Cells(line), ListedRows(Cells(line), rows))
  {
    NothingFound(before);
    if HeaderRow(line) {
      ListedExactly(Cells(line), rows);
      UpdatesBehind(before, line, rows);
    }
    hide Cells, Lists, IsHeader, Locate, DataRows, Updates, UpdatesOf, Complete, Given, GivenAll, ListedRows;
  }

  lemma NothingFound(lines: seq<string>)
    requires NoHeaderIn(lines)
    ensures Updates(lines) == []
  {
    NoHeaderLine(lines);
    TableHeader(lines, WANTED, []);
    hide HeaderLine, TableFrom, UpdatesOf, Complete;
  }

  lemma {:induction false} NoHeaderLine(lines: seq<string>)
    requires NoHeaderIn(lines)
    ensures HeaderLine(lines, WANTED) == |lines|
  {
    if lines != [] {
      assert !HeaderRow(lines[0]);
      NoHeaderLine(lines[1..]);
    }
  }

  /** Two layouts with the same three cells in every row give the same updates: adding or moving columns changes nothing. */
  lemma LayoutDoesNotMatter(before: seq<string>, line: string, rows: seq<string>, before': seq<string>, line': string, rows': seq<string>)
    requires NoHeaderIn(before)
    requires NoHeaderIn(before')
    requires HeaderRow(line) && HeaderRow(line')
    requires |rows| == |rows'|
    requires forall i :: 0 <= i < |rows| ==> SameCells(line, rows[i], line', rows'[i])
    ensures Updates(before + ([line] + rows)) == Updates(before' + ([line'] + rows'))
  {
    hide Cells, Triple, Good, IsHeader, HeaderRow, Updates;
    assert forall i :: 0 <= i < |rows'| ==> SameCells(line, rows[i], line', rows'[i]);
    UpdatesAreNamedCells(before, line, rows);
    UpdatesAreNamedCells(before', line', rows');
  }

  // ------------------------------------------------------- rearranged columns

  predicate Below(p: seq<nat>, n: nat) {
    forall i :: 0 <= i < |p| ==> p[i] < n
  }

  /** The cells at the positions p, in the order of p. */
  function Select(cells: seq<string>, p: seq<nat>): (r: seq<string>)
    requires Below(p, |cells|)
  {
    seq(|p|, i requires 0 <= i < |p| => cells[p[i]])
  }

  predicate Once(cells: seq<string>, w: string) {
    w in cells && forall i, j :: 0 <= i < |cells| && 0 <= j < |cells| && cells[i] == w && cells[j] == w ==> i == j
  }

  /** p keeps the three named columns of the header. */
  predicate Keeps(hdr: seq<string>, p: seq<nat>) {
    && Below(p, |hdr|)
    && (forall w :: w in WANTED ==> Once(hdr, w) && Position(hdr, w) in p)
  }

  lemma SelectedCell(hdr: seq<string>, row: seq<string>, p: seq<nat>, w: string)
    requires Keeps(hdr, p) && w in WANTED && |row| == |hdr|
    ensures w in Select(hdr, p)
    ensures Under(Select(hdr, p), Select(row, p), w) == Under(hdr, row, w)
  {
    var at := Position(hdr, w);
    var k :| 0 <= k < |p| && p[k] == at;
    assert Select(hdr, p)[k] == hdr[at];
    var i := Position(Select(hdr, p), w);
    assert hdr[p[i]] == Select(hdr, p)[i] == w;
    assert p[i] == at;
  }

  /** A table line with the given cells, padding included. */
  predicate Row(parts: seq<string>) {
    |parts| > 1 && forall i :: 0 <= i < |parts| ==> '|' !in parts[i]
  }

  lemma RowCells(parts: seq<string>)
    requires Row(parts)
    ensures '|' in Join("|", parts) && Cells(Join("|", parts)) == StripAll(parts)
  {
    CellsOfJoin(parts);
    assert Join("|", parts)[|parts[0]|] == '|';
  }

  lemma SelectStrip(parts: seq<string>, p: seq<nat>)
    requires Below(p, |parts|)
    ensures StripAll(Select(parts, p)) == Select(StripAll(parts), p)
  {
    hide StripAll, Strip;
  }

  lemma SelectedTriple(hdr: seq<string>, row: seq<string>, p: seq<nat>)
    requires |row| == |hdr| && Keeps(hdr, p)
    ensures IsHeader(hdr, WANTED) && IsHeader(Select(hdr, p), WANTED)
    ensures Triple(Select(hdr, p), Select(row, p)) == Triple(hdr, row)
  {
    hide Under, Select;
    forall w | w in WANTED
      ensures w in Select(hdr, p) && w in hdr && Under(Select(hdr, p), Select(row, p), w) == Under(hdr, row, w)
    {
      SelectedCell(hdr, row, p, w);
    }
    hide Keeps;
  }

  lemma SelectRow(row: seq<string>, p: seq<nat>)
    requires Row(row) && |p| > 1 && Below(p, |row|)
    ensures Row(Select(row, p))
  {
  }

  /** The table line with the cells of parts at the positions p. */
  function Narrow(parts: seq<string>, p: seq<nat>): string
    requires Below(p, |parts|)
  {
    Join("|", Select(parts, p))
  }

  /** Selecting columns of the header and of one row keeps the three named cells of the row. */
  lemma SelectedLine(hdr: seq<string>, row: seq<string>, p: seq<nat>)
    requires Row(hdr) && Row(row) && |row| == |hdr| && |p| > 1 && Keeps(StripAll(hdr), p)
    requires Good(Triple(StripAll(hdr), StripAll(row)))
    ensures SameCells(Join("|", hdr), Join("|", row), Narrow(hdr, p), Narrow(row, p))
  {
    SelectStrip(hdr, p);
    SelectStrip(row, p);
    SelectedTriple(StripAll(hdr), StripAll(row), p);
    SelectRow(hdr, p);
    SelectRow(row, p);
    hide Row, Keeps, Select, Triple, IsHeader, Cells, Good;
    RowCells(hdr);
    RowCells(row);
    RowCells(Select(hdr, p));
    RowCells(Select(row, p));
  }

  lemma SelectedHeader(hdr: seq<string>, p: seq<nat>)
    requires Row(hdr) && |p| > 1 && Keeps(StripAll(hdr), p)
    ensures HeaderRow(Join("|", hdr)) && HeaderRow(Narrow(hdr, p))
  {
    SelectStrip(hdr, p);
    SelectedTriple(StripAll(hdr), StripAll(hdr), p);
    SelectRow(hdr, p);
    hide Row, Keeps, Select, Triple, IsHeader, Cells;
    RowCells(hdr);
    RowCells(Select(hdr, p));
  }

  function PrintAll(rows: seq<seq<string>>): (lines: seq<string>)
    ensures |lines| == |rows| && forall i :: 0 <= i < |rows| ==> lines[i] == Join("|", rows[i])
  {
    if rows == [] then [] else [Join("|", rows[0])] + PrintAll(rows[1..])
  }

  function PrintNarrow(rows: seq<seq<string>>, p: seq<nat>): (lines: seq<string>)
    requires forall r :: r in rows ==> Below(p, |r|)
    ensures |lines| == |rows| && forall i :: 0 <= i < |rows| ==> lines[i] == Narrow(rows[i], p)
  {
    if rows == [] then [] else [Narrow(rows[0], p)] + PrintNarrow(rows[1..], p)
  }

  /**
   * Moving or dropping the other columns of the printed table, or read from right
   * to left adding some, leaves the update list as it was.
   */
  lemma ColumnsMayMove(hdr: seq<string>, rows: seq<seq<string>>, p: seq<nat>)
    requires Row(hdr) && |p| > 1 && Keeps(StripAll(hdr), p)
    requires forall r :: r in rows ==> Row(r) && |r| == |hdr| && Good(Triple(StripAll(hdr), StripAll(r)))
    ensures Updates([Join("|", hdr)] + PrintAll(rows)) == Updates([Narrow(hdr, p)] + PrintNarrow(rows, p))
  {
    var wide, narrow := PrintAll(rows), PrintNarrow(rows, p);
    SelectedHeader(hdr, p);
    assert Below(p, |hdr|) && NoHeaderIn([]);
    hide *;
    forall i | 0 <= i < |rows|
      ensures SameCells(Join("|", hdr), wide[i], Narrow(hdr, p), narrow[i])
    {
      assert rows[i] in rows;
      SelectedLine(hdr, rows[i], p);
    }
    LayoutDoesNotMatter([], Join("|", hdr), wide, [], Narrow(hdr, p), narrow);
    NoneBefore([Join("|", hdr)] + wide);
    NoneBefore([Narrow(hdr, p)] + narrow);
  }

  lemma NoneBefore(lines: seq<string>)
    ensures [] + lines == lines
  {
  }
}
