/**
 * The page (src/pages/Index.tsx): what it keeps of a parsed statement, and `getCSV`, which
 * writes the visible transactions as comma-separated values with every cell quoted. A
 * reader for exactly that format is given beside it, and reading a written document gives
 * back its rows. Which rows are visible is decided by the table's view; the file export
 * itself (a Blob and a download link) is not modelled.
 */
module IndexPage {
  import opened Wrappers
  import opened Strings
  import opened OFXParser
  import TransactionsTable

  // ---------------------------------------------------------------------------
  // The page state: `data` and `visible`
  // ---------------------------------------------------------------------------

  datatype PageState = PageState(data: Option<OFXData>, visible: seq<Transaction>)

  /** Before any file is read there is no statement and nothing is visible. */
  const InitialPage := PageState(None, [])

  /** `handleParsed(d)`: `setData(d)` and `setVisible(d.transactions)`. */
  function HandleParsed(st: PageState, d: OFXData): (r: PageState)
    ensures r.data == Some(d) && r.visible == d.transactions
  {
    PageState(Some(d), d.transactions)
  }

  /** `onViewChange={setVisible}`: the table reports the rows it shows; the statement is kept. */
  function ViewChange(st: PageState, rows: seq<Transaction>): (r: PageState)
    ensures r.data == st.data && r.visible == rows
  {
    st.(visible := rows)
  }

  // ---------------------------------------------------------------------------
  // `getCSV`
  // ---------------------------------------------------------------------------

  /** The header row. */
  const Header: seq<string> := ["type", "date", "amount", "fitid", "description"]

  /** `.replace(/\n|\r/g, " ")`: every line break becomes a space. */
  function FlattenLineBreaks(s: string): (r: string)
    ensures |r| == |s|
    ensures forall i :: 0 <= i < |s| ==> r[i] == if s[i] == '\n' || s[i] == '\r' then ' ' else s[i]
  {
    seq(|s|, i requires 0 <= i < |s| => if s[i] == '\n' || s[i] == '\r' then ' ' else s[i])
  }

  /** A flattened description holds no line break, and flattening again changes nothing. */
  lemma FlattenedHasNoLineBreak(s: string)
    ensures '\n' !in FlattenLineBreaks(s) && '\r' !in FlattenLineBreaks(s)
    ensures FlattenLineBreaks(FlattenLineBreaks(s)) == FlattenLineBreaks(s)
  {
    var r := FlattenLineBreaks(s);
    forall i | 0 <= i < |r| ensures r[i] != '\n' && r[i] != '\r' { }
  }

  /**
   * `String(t.amount).replace(".", ",")`: the decimal point of the number's text becomes a
   * comma. The text JavaScript gives a number is not modelled; `show` stands for it.
   */
  function AmountCell(amount: real, show: real -> string): (r: string)
    ensures |r| == |show(amount)|
    ensures '.' !in show(amount) ==> r == show(amount)
    ensures '.' in show(amount) ==> r[FirstIndex(show(amount), '.')] == ','
    ensures forall i :: 0 <= i < |r| && i != FirstIndex(show(amount), '.') ==> r[i] == show(amount)[i]
  {
    ReplaceFirst(show(amount), '.', ',')
  }

  /** The cells of one transaction: type, date, amount, identifier and flattened description. */
  function Row(t: Transaction, show: real -> string): (r: seq<string>)
    ensures |r| == |Header|
  {
    [t.trnType, t.dtPosted, AmountCell(t.amount, show), t.fitId, FlattenLineBreaks(Description(t))]
  }

  /** The header, then one row per visible transaction, in order. */
  function Rows(visible: seq<Transaction>, show: real -> string): (rows: seq<seq<string>>)
    ensures |rows| == |visible| + 1 && rows[0] == Header
    ensures forall i :: 0 <= i < |visible| ==> rows[i + 1] == Row(visible[i], show)
  {
    [Header] + seq(|visible|, i requires 0 <= i < |visible| => Row(visible[i], show))
  }

  /** `String(c).replace(/"/g, '""')`. */
  function Escape(c: string): (r: string)
    ensures '"' !in c ==> r == c
  {
    ReplaceAll(c, '"', "\"\"")
  }

  /** `"${…}"`: a cell in quotes, its own quotes doubled. */
  function Quote(c: string): (q: string)
    ensures |q| >= 2 && q[0] == '"' && q[|q| - 1] == '"'
  {
    "\"" + Escape(c) + "\""
  }

  /** `r.map(…).join(",")`. */
  function Line(cells: seq<string>): string {
    Join(seq(|cells|, k requires 0 <= k < |cells| => Quote(cells[k])), ",")
  }

  /** `rows.map(…).join("\n")`. */
  function Document(rows: seq<seq<string>>): string {
    Join(seq(|rows|, i requires 0 <= i < |rows| => Line(rows[i])), "\n")
  }

  /** `getCSV()` over the visible transactions. */
  function GetCsv(visible: seq<Transaction>, show: real -> string): string {
    Document(Rows(visible, show))
  }

  // ---------------------------------------------------------------------------
  // Reading the format back
  // ---------------------------------------------------------------------------

  /** The rest of a quoted cell after its opening quote: `""` is a quote, a lone `"` ends the cell. */
  function ReadQuoted(s: string): (r: Option<(string, string)>)
    decreases |s|
    ensures r.Some? ==> |r.value.1| < |s|
  {
    if s == [] then None
    else if s[0] == '"' then
      if |s| > 1 && s[1] == '"' then
        match ReadQuoted(s[2..])
        case None => None
        case Some((c, rest)) => Some(("\"" + c, rest))
      else Some(([], s[1..]))
    else
      match ReadQuoted(s[1..])
      case None => None
      case Some((c, rest)) => Some(([s[0]] + c, rest))
  }

  /** The quoted cells of a line, separated by commas, and what follows the last one. */
  function ReadCells(s: string): (r: Option<(seq<string>, string)>)
    decreases |s|
    ensures r.Some? ==> |r.value.1| < |s|
  {
    if s == [] || s[0] != '"' then None
    else
      match ReadQuoted(s[1..])
      case None => None
      case Some((c, rest)) =>
        if rest != [] && rest[0] == ',' then
          match ReadCells(rest[1..])
          case None => None
          case Some((cs, after)) => Some(([c] + cs, after))
        else Some(([c], rest))
  }

  /** The lines of a document, separated by line feeds, each read into its cells. */
  function ReadRows(s: string): (r: Option<seq<seq<string>>>)
    decreases |s|
  {
    match ReadCells(s)
    case None => None
    case Some((row, rest)) =>
      if rest == [] then Some([row])
      else if rest[0] == '\n' then
        match ReadRows(rest[1..])
        case None => None
        case Some(rows) => Some([row] + rows)
      else None
  }

  /** Escaping works one character at a time. */
  lemma EscapeCons(c: string)
    requires c != []
    ensures Escape(c) == (if c[0] == '"' then "\"\"" else [c[0]]) + Escape(c[1..])
  {
  }

  /** An escaped cell followed by its closing quote reads back to the cell. */
  lemma {:induction false} ReadQuotedEscape(c: string, rest: string)
    requires rest == [] || rest[0] != '"'
    decreases |c|
    ensures ReadQuoted(Escape(c) + "\"" + rest) == Some((c, rest))
  {
    if c == [] {
      var s := Escape(c) + "\"" + rest;
      assert s == "\"" + rest;
      assert s[1..] == rest;
    } else {
      ReadQuotedEscape(c[1..], rest);
      ReadQuotedEscapeStep(c, rest);
    }
  }

  /** If the escaped rest of a cell reads back, so does the escaped cell. */
  lemma ReadQuotedEscapeStep(c: string, rest: string)
    requires c != [] && ReadQuoted(Escape(c[1..]) + "\"" + rest) == Some((c[1..], rest))
    ensures ReadQuoted(Escape(c) + "\"" + rest) == Some((c, rest))
  {
    var tail := Escape(c[1..]) + "\"" + rest;
    EscapeCons(c);
    if c[0] == '"' {
      assert Escape(c) + "\"" + rest == "\"\"" + tail;
      ReadQuotedDoubled(c[1..], tail, rest);
      assert c == "\"" + c[1..];
    } else {
      assert Escape(c) + "\"" + rest == [c[0]] + tail;
      ReadQuotedPlain(c[0], c[1..], tail, rest);
      assert c == [c[0]] + c[1..];
    }
  }

  /** A doubled quote reads as one quote of the cell. */
  lemma ReadQuotedDoubled(c: string, tail: string, rest: string)
    requires ReadQuoted(tail) == Some((c, rest))
    ensures ReadQuoted("\"\"" + tail) == Some(("\"" + c, rest))
  {
    assert ("\"\"" + tail)[2..] == tail;
  }

  /** Any other character reads as itself. */
  lemma ReadQuotedPlain(x: char, c: string, tail: string, rest: string)
    requires x != '"' && ReadQuoted(tail) == Some((c, rest))
    ensures ReadQuoted([x] + tail) == Some(([x] + c, rest))
  {
    assert ([x] + tail)[1..] == tail;
  }

  /** A quoted cell followed by anything but a quote opens with a quote and reads back to the cell. */
  lemma ReadQuote(c: string, rest: string)
    requires rest == [] || rest[0] != '"'
    ensures var s := Quote(c) + rest; s[0] == '"' && ReadQuoted(s[1..]) == Some((c, rest))
  {
    assert (Quote(c) + rest)[1..] == Escape(c) + "\"" + rest;
    ReadQuotedEscape(c, rest);
  }

  /** A quoted cell reads back to the cell. */
  lemma QuoteRoundTrip(c: string)
    ensures ReadCells(Quote(c)) == Some(([c], ""))
  {
    ReadQuote(c, "");
    assert Quote(c) + "" == Quote(c);
  }

  /** A line of one cell is that cell quoted. */
  lemma LineSingle(cells: seq<string>)
    requires |cells| == 1
    ensures Line(cells) == Quote(cells[0])
  {
  }

  /** A line of several cells is the first one quoted, a comma, and the line of the others. */
  lemma LineCons(cells: seq<string>)
    requires |cells| > 1
    ensures Line(cells) == Quote(cells[0]) + "," + Line(cells[1..])
  {
    var quoted := seq(|cells|, k requires 0 <= k < |cells| => Quote(cells[k]));
    assert quoted[1..] == seq(|cells[1..]|, k requires 0 <= k < |cells[1..]| => Quote(cells[1..][k]));
  }

  /** A document of one row is that row's line. */
  lemma DocumentSingle(rows: seq<seq<string>>)
    requires |rows| == 1
    ensures Document(rows) == Line(rows[0])
  {
  }

  /** A document of several rows is the first line, a line feed, and the document of the others. */
  lemma DocumentCons(rows: seq<seq<string>>)
    requires |rows| > 1
    ensures Document(rows) == Line(rows[0]) + "\n" + Document(rows[1..])
  {
    var lines := seq(|rows|, i requires 0 <= i < |rows| => Line(rows[i]));
    assert lines[1..] == seq(|rows[1..]|, i requires 0 <= i < |rows[1..]| => Line(rows[1..][i]));
  }

  /** A quoted cell, a comma and a readable line read as that cell before the line's cells. */
  lemma ReadCellsCons(c: string, next: string, cs: seq<string>, rest: string)
    requires ReadCells(next) == Some((cs, rest))
    ensures ReadCells(Quote(c) + "," + next) == Some(([c] + cs, rest))
  {
    assert Quote(c) + "," + next == Quote(c) + ("," + next);
    ReadQuote(c, "," + next);
    assert ("," + next)[1..] == next;
  }

  /** The last quoted cell of a line, followed by a line feed or nothing, reads as that one cell. */
  lemma ReadCellsLast(c: string, rest: string)
    requires rest == [] || rest[0] == '\n'
    ensures ReadCells(Quote(c) + rest) == Some(([c], rest))
  {
    ReadQuote(c, rest);
  }

  /** A written line reads back to its cells, whatever follows it on the next line. */
  lemma {:induction false} ReadLine(cells: seq<string>, rest: string)
    requires |cells| > 0
    requires rest == [] || rest[0] == '\n'
    decreases |cells|
    ensures ReadCells(Line(cells) + rest) == Some((cells, rest))
  {
    var c := cells[0];
    if |cells| == 1 {
      LineSingle(cells);
      ReadCellsLast(c, rest);
      assert cells == [c];
    } else {
      LineCons(cells);
      ReadLine(cells[1..], rest);
      ReadCellsCons(c, Line(cells[1..]) + rest, cells[1..], rest);
      assert Line(cells) + rest == Quote(c) + "," + (Line(cells[1..]) + rest);
      assert cells == [c] + cells[1..];
    }
  }

  /** A written document reads back to its rows. */
  lemma {:induction false} ReadDocument(rows: seq<seq<string>>)
    requires |rows| > 0 && forall i :: 0 <= i < |rows| ==> |rows[i]| > 0
    decreases |rows|
    ensures ReadRows(Document(rows)) == Some(rows)
  {
    if |rows| == 1 {
      DocumentSingle(rows);
      ReadLine(rows[0], "");
      assert Line(rows[0]) + "" == Line(rows[0]);
      assert rows == [rows[0]];
    } else {
      var next := Document(rows[1..]);
      DocumentCons(rows);
      assert Document(rows) == Line(rows[0]) + ("\n" + next);
      ReadLine(rows[0], "\n" + next);
      assert ("\n" + next)[1..] == next;
      ReadDocument(rows[1..]);
      assert rows == [rows[0]] + rows[1..];
    }
  }

  /**
   * The exported file reads back to the header and then one row per visible transaction,
   * in order, each cell exactly the value written.
   */
  lemma CsvRoundTrip(visible: seq<Transaction>, show: real -> string)
    ensures ReadRows(GetCsv(visible, show)) == Some(Rows(visible, show))
  {
    ReadDocument(Rows(visible, show));
  }

  /** The file starts with the header line, which reads back to the header. */
  lemma CsvStartsWithHeader(visible: seq<Transaction>, show: real -> string)
    ensures var h := Line(Header); |GetCsv(visible, show)| >= |h| && GetCsv(visible, show)[..|h|] == h
    ensures ReadCells(Line(Header)) == Some((Header, ""))
  {
    var rows := Rows(visible, show);
    if |rows| > 1 {
      DocumentCons(rows);
    } else {
      DocumentSingle(rows);
    }
    ReadLine(Header, "");
    assert Line(Header) + "" == Line(Header);
  }

  /**
   * Right after `handleParsed`, before the table reports its view, the export would list
   * exactly the statement's transactions. The table's first render replaces `visible`
   * straight away; `ParsedThenShown` is the state the export is taken from.
   */
  lemma ExportAfterParse(st: PageState, d: OFXData, show: real -> string)
    ensures ReadRows(GetCsv(HandleParsed(st, d).visible, show)) == Some(Rows(d.transactions, show))
  {
    CsvRoundTrip(d.transactions, show);
  }

  /** After the table reports its view, the export lists exactly the rows shown, and the statement is kept. */
  lemma ExportAfterView(st: PageState, rows: seq<Transaction>, show: real -> string)
    ensures ViewChange(st, rows).data == st.data
    ensures ReadRows(GetCsv(ViewChange(st, rows).visible, show)) == Some(Rows(rows, show))
  {
    CsvRoundTrip(rows, show);
  }

  /**
   * `handleParsed(d)` followed by the table's `onViewChange(sorted)` in the render that
   * mounts or updates it: `visible` becomes the table's filtered and sorted view of the
   * statement. The table keeps its query and sort state across files; a freshly mounted
   * table has the empty query and sorts by date, newest first.
   */
  method ParsedThenShown(st: PageState, d: OFXData, query: string, sort: TransactionsTable.SortState, show: real -> string)
    returns (p: PageState)
    ensures p.data == Some(d)
    ensures multiset(p.visible) == multiset(TransactionsTable.Kept(d.transactions, query))
    ensures TransactionsTable.Sorted(p.visible, TransactionsTable.InOrder(sort.key, sort.dir))
    ensures Trim(query) == [] ==> multiset(p.visible) == multiset(d.transactions)
    ensures sort == TransactionsTable.InitialSort ==>
      forall i, j :: 0 <= i < j < |p.visible| ==>
        !TransactionsTable.KeyLess(p.visible[i], p.visible[j], TransactionsTable.DtPosted)
    ensures ReadRows(GetCsv(p.visible, show)) == Some(Rows(p.visible, show))
  {
    p := HandleParsed(st, d);
    var rows := TransactionsTable.Filtered(d.transactions, query, sort.key, sort.dir);
    p := ViewChange(p, rows);
    if sort == TransactionsTable.InitialSort {
      forall i, j | 0 <= i < j < |rows|
        ensures !TransactionsTable.KeyLess(rows[i], rows[j], TransactionsTable.DtPosted)
      {
        TransactionsTable.SortedMeaning(rows, sort.key, sort.dir, i, j);
      }
    }
    CsvRoundTrip(rows, show);
  }
}
