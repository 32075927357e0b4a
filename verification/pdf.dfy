/** The document definition `generarPDF` hands to the PDF renderer: a title, a blank
    spacer, and a three-column table whose body is one header row followed by one row per
    record of the filtered view. Styles are referred to by name only. */
module PdfExport {
  import opened Options
  import opened Movies
  import opened Decimal

  /** A table cell: its text and the name of its style. */
  datatype Cell = Cell(text: string, style: string)

  datatype Table = Table(headerRows: nat, widths: seq<string>, body: seq<seq<Cell>>)

  datatype Document = Document(title: Cell, spacer: string, table: Table)

  const TitleStyle: string := "encabezado"
  const HeaderStyle: string := "encabezadoTabla"
  const CellStyle: string := "celdaTabla"

  const HeaderRow: seq<Cell> :=
    [Cell("Título", HeaderStyle), Cell("Género", HeaderStyle), Cell("Año de lanzamiento", HeaderStyle)]

  /** The three cells one record becomes: title, genre, and the year's decimal string. */
  function Row(m: Movie): seq<Cell> {
    [Cell(m.titulo, CellStyle), Cell(m.genero, CellStyle), Cell(IntToDecimal(m.lanzamiento), CellStyle)]
  }

  /** The `body` array: the header row, then the rows of the view in view order. */
  function Body(view: seq<Movie>): (body: seq<seq<Cell>>)
    ensures |body| == 1 + |view|
    ensures body[0] == HeaderRow
    ensures forall k :: 0 <= k < |body| ==> |body[k]| == 3
    ensures forall k :: 1 <= k < |body| ==>
      && body[k][0].text == view[k - 1].titulo
      && body[k][1].text == view[k - 1].genero
      && (forall j :: 0 <= j < 3 ==> body[k][j].style == CellStyle)
  {
    var rows := seq(|view|, i requires 0 <= i < |view| => Row(view[i]));
    var body := [HeaderRow] + rows;
    assert forall k :: 1 <= k < |body| ==> body[k] == Row(view[k - 1]);
    body
  }

  /** The third cell of each record row is the year's canonical decimal numeral: it reads
      back as that year, and by `CanonicalIsRendering` no other string does both. */
  lemma YearCells(view: seq<Movie>)
    ensures forall k :: 1 <= k < |Body(view)| ==>
      Canonical(Body(view)[k][2].text) && ParseInt(Body(view)[k][2].text) == Some(view[k - 1].lanzamiento)
  {
  }

  /** The whole document definition for a view. */
  function Report(view: seq<Movie>): (d: Document)
    ensures d.table.headerRows == 1 <= |d.table.body|
    ensures forall k :: 0 <= k < |d.table.body| ==> |d.table.body[k]| == |d.table.widths|
    ensures |d.table.body| == 1 + |view|
  {
    Document(Cell("Informe de Películas", TitleStyle), "\n\n", Table(1, ["*", "*", "*"], Body(view)))
  }

  // ---------------------------------------------------------------------------------------
  // Reading the table back

  function DecodeRow(row: seq<Cell>): Option<Movie> {
    if |row| != 3 then None
    else match ParseInt(row[2].text)
      case None => None
      case Some(n) => Some(Movie(row[0].text, row[1].text, n))
  }

  function DecodeRows(rows: seq<seq<Cell>>): Option<seq<Movie>>
    decreases |rows|
  {
    if |rows| == 0 then Some([])
    else match DecodeRow(rows[0])
      case None => None
      case Some(m) =>
        match DecodeRows(rows[1..])
        case None => None
        case Some(ms) => Some([m] + ms)
  }

  /** A body must open with the header row; the rows after it are the records. */
  function DecodeBody(body: seq<seq<Cell>>): Option<seq<Movie>> {
    if |body| == 0 || body[0] != HeaderRow then None else DecodeRows(body[1..])
  }

  lemma {:induction false} DecodeRowsOfView(view: seq<Movie>)
    ensures DecodeRows(Body(view)[1..]) == Some(view)
    decreases |view|
  {
    if |view| > 0 {
      var rest := view[1..];
      var rows := Body(view)[1..];
      assert rows[0] == Row(view[0]);
      assert rows[1..] == Body(rest)[1..];
      IntRoundTrip(view[0].lanzamiento);
      assert DecodeRow(rows[0]) == Some(view[0]);
      DecodeRowsOfView(rest);
      assert [view[0]] + rest == view;
    }
  }

  /** The table carries the whole view: decoding the body gives the view back, whatever
      the titles and genres contain. */
  lemma TableRoundTrip(view: seq<Movie>)
    ensures DecodeBody(Body(view)) == Some(view)
  {
    DecodeRowsOfView(view);
  }

  /** An empty view still renders a table: just the header row. */
  lemma EmptyViewIsHeaderOnly()
    ensures Body([]) == [HeaderRow]
  {
  }
}
