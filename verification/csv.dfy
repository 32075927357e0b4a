/** The text `exportarCSV` builds before URI-encoding it: a data-URI prefix, a fixed header
    line, then one line per record of the filtered view. Fields are joined with commas and
    written as they are: nothing is quoted or escaped. */
module CsvExport {
  import opened Options
  import opened Movies
  import opened Decimal

  const DataUriPrefix: string := "data:text/csv;charset=utf-8,"
  const HeaderLabels: string := "Título,Género,Año de lanzamiento"
  const HeaderLine: string := HeaderLabels + "\n"

  /** The template literal `${titulo},${genero},${lanzamiento}\n` for one record. */
  function Line(m: Movie): string {
    m.titulo + "," + m.genero + "," + IntToDecimal(m.lanzamiento) + "\n"
  }

  /** The record lines of a view, joined in view order. */
  function Lines(view: seq<Movie>): string
    decreases |view|
  {
    if |view| == 0 then "" else Line(view[0]) + Lines(view[1..])
  }

  /** The whole string handed to `encodeURI`. */
  function Content(view: seq<Movie>): string {
    DataUriPrefix + HeaderLine + Lines(view)
  }

  lemma {:induction false} LinesSnoc(view: seq<Movie>, m: Movie)
    ensures Lines(view + [m]) == Lines(view) + Line(m)
    decreases |view|
  {
    if |view| == 0 {
      assert [m][1..] == [];
    } else {
      assert (view + [m])[1..] == view[1..] + [m];
      LinesSnoc(view[1..], m);
    }
  }

  /** Regrouping an append, as one loop step of `ExportCsv` needs it. */
  lemma AppendAssoc(a: string, b: string, c: string)
    ensures (a + b) + c == a + (b + c)
  {
  }

  /** The accumulation in `exportarCSV`: start from the prefix, append the header, then append one
      line per record inside `forEach`. */
  method ExportCsv(view: seq<Movie>) returns (csvContent: string)
    ensures csvContent == Content(view)
    ensures (forall i :: 0 <= i < |view| ==> SingleLine(view[i]))
        ==> Count(csvContent, '\n') == 1 + |view|
    ensures (forall i :: 0 <= i < |view| ==> PlainFields(view[i]))
        ==> ParseContent(csvContent) == Some(view)
  {
    csvContent := DataUriPrefix;
    csvContent := csvContent + HeaderLine;
    ghost var start := csvContent;
    var i := 0;
    while i < |view|
      invariant 0 <= i <= |view|
      invariant csvContent == start + Lines(view[..i])
    {
      assert view[..i + 1] == view[..i] + [view[i]];
      LinesSnoc(view[..i], view[i]);
      AppendAssoc(start, Lines(view[..i]), Line(view[i]));
      csvContent := csvContent + Line(view[i]);
      i := i + 1;
    }
    assert view[..i] == view;
    if forall i :: 0 <= i < |view| ==> SingleLine(view[i]) {
      LineCount(view);
    }
    if forall i :: 0 <= i < |view| ==> PlainFields(view[i]) {
      CsvRoundTrip(view);
    }
  }

  // ---------------------------------------------------------------------------------------
  // Counting lines

  function Count(s: string, c: char): (n: nat)
    ensures n <= |s|
    ensures n == 0 <==> c !in s
    decreases |s|
  {
    if |s| == 0 then 0 else (if s[0] == c then 1 else 0) + Count(s[1..], c)
  }

  lemma {:induction false} CountAppend(a: string, b: string, c: char)
    ensures Count(a + b, c) == Count(a, c) + Count(b, c)
    decreases |a|
  {
    if |a| == 0 {
      assert a + b == b;
    } else {
      assert (a + b)[1..] == a[1..] + b;
      CountAppend(a[1..], b, c);
    }
  }

  /** A field without a line break contributes no line break of its own. */
  predicate SingleLine(m: Movie) {
    '\n' !in m.titulo && '\n' !in m.genero
  }

  lemma {:induction false} LinesCount(view: seq<Movie>)
    requires forall i :: 0 <= i < |view| ==> SingleLine(view[i])
    ensures Count(Lines(view), '\n') == |view|
    decreases |view|
  {
    if |view| > 0 {
      LineHasOneBreak(view[0]);
      CountAppend(Line(view[0]), Lines(view[1..]), '\n');
      LinesCount(view[1..]);
    }
  }

  lemma LineHasOneBreak(m: Movie)
    requires SingleLine(m)
    ensures Count(Line(m), '\n') == 1
  {
    var fields := m.titulo + "," + m.genero + "," + IntToDecimal(m.lanzamiento);
    assert Line(m) == fields + "\n";
    assert '\n' !in fields;
    CountAppend(fields, "\n", '\n');
  }

  /** With single-line fields the file has one line for the header plus one per record. */
  lemma LineCount(view: seq<Movie>)
    requires forall i :: 0 <= i < |view| ==> SingleLine(view[i])
    ensures Count(Content(view), '\n') == 1 + |view|
  {
    HeaderCount();
    CountAppend(DataUriPrefix + HeaderLine, Lines(view), '\n');
    LinesCount(view);
  }

  /** The prefix and the header together hold exactly one line break. */
  lemma HeaderCount()
    ensures Count(DataUriPrefix + HeaderLine, '\n') == 1
  {
    PrefixHasNoBreak();
    HeaderHasOneBreak();
    CountAppend(DataUriPrefix, HeaderLine, '\n');
  }

  lemma HeaderHasOneBreak()
    ensures Count(HeaderLine, '\n') == 1
  {
    LabelsHaveNoBreak();
    CountAppend(HeaderLabels, "\n", '\n');
  }

  lemma PrefixHasNoBreak()
    ensures Count(DataUriPrefix, '\n') == 0
  {
    assert '\n' !in DataUriPrefix;
  }

  lemma LabelsHaveNoBreak()
    ensures Count(HeaderLabels, '\n') == 0
  {
    assert '\n' !in HeaderLabels;
  }

  // ---------------------------------------------------------------------------------------
  // Reading the text back

  /** Splits `s` at the first occurrence of `c`. */
  function SplitAt(s: string, c: char): (r: Option<(string, string)>)
    ensures r.None? <==> c !in s
    ensures r.Some? ==> s == r.value.0 + [c] + r.value.1 && c !in r.value.0
    decreases |s|
  {
    if |s| == 0 then None
    else if s[0] == c then Some(([], s[1..]))
    else match SplitAt(s[1..], c)
      case None => None
      case Some((a, b)) => Some(([s[0]] + a, b))
  }

  lemma {:induction false} SplitAtFirst(a: string, c: char, b: string)
    requires c !in a
    ensures SplitAt(a + [c] + b, c) == Some((a, b))
    decreases |a|
  {
    if |a| > 0 {
      assert (a + [c] + b)[1..] == a[1..] + [c] + b;
      SplitAtFirst(a[1..], c, b);
      assert [a[0]] + a[1..] == a;
    } else {
      assert (a + [c] + b)[1..] == b;
    }
  }

  /** Reads one line (without its line break) as `titulo,genero,lanzamiento`. */
  function ParseLine(line: string): Option<Movie> {
    match SplitAt(line, ',')
    case None => None
    case Some((titulo, rest)) =>
      match SplitAt(rest, ',')
      case None => None
      case Some((genero, year)) =>
        match ParseInt(year)
        case None => None
        case Some(n) => Some(Movie(titulo, genero, n))
  }

  function ParseLines(s: string): Option<seq<Movie>>
    decreases |s|
  {
    if |s| == 0 then Some([])
    else match SplitAt(s, '\n')
      case None => None
      case Some((line, rest)) =>
        match ParseLine(line)
        case None => None
        case Some(m) =>
          match ParseLines(rest)
          case None => None
          case Some(ms) => Some([m] + ms)
  }

  /** Reads back a whole export: the prefix and header must be there as written. */
  function ParseContent(s: string): Option<seq<Movie>> {
    var n := |DataUriPrefix + HeaderLine|;
    if |s| >= n && s[..n] == DataUriPrefix + HeaderLine then ParseLines(s[n..]) else None
  }

  /** A field the unquoted layout can carry: no comma and no line break. */
  predicate PlainFields(m: Movie) {
    ',' !in m.titulo && '\n' !in m.titulo && ',' !in m.genero && '\n' !in m.genero
  }

  lemma LineRoundTrip(m: Movie, more: string)
    requires PlainFields(m)
    ensures SplitAt(Line(m) + more, '\n')
         == Some((m.titulo + "," + m.genero + "," + IntToDecimal(m.lanzamiento), more))
    ensures ParseLine(m.titulo + "," + m.genero + "," + IntToDecimal(m.lanzamiento)) == Some(m)
  {
    var d := IntToDecimal(m.lanzamiento);
    var fields := m.titulo + "," + m.genero + "," + d;
    assert '\n' !in fields;
    assert Line(m) + more == fields + ['\n'] + more;
    SplitAtFirst(fields, '\n', more);
    assert fields == m.titulo + [','] + (m.genero + "," + d);
    SplitAtFirst(m.titulo, ',', m.genero + "," + d);
    assert m.genero + "," + d == m.genero + [','] + d;
    SplitAtFirst(m.genero, ',', d);
    IntRoundTrip(m.lanzamiento);
  }

  lemma ParseLinesStep(s: string, m: Movie, rest: seq<Movie>)
    requires |s| > 0
    requires SplitAt(s, '\n').Some?
    requires ParseLine(SplitAt(s, '\n').value.0) == Some(m)
    requires ParseLines(SplitAt(s, '\n').value.1) == Some(rest)
    ensures ParseLines(s) == Some([m] + rest)
  {
  }

  lemma {:induction false} LinesRoundTrip(view: seq<Movie>)
    requires forall i :: 0 <= i < |view| ==> PlainFields(view[i])
    ensures ParseLines(Lines(view)) == Some(view)
    decreases |view|
  {
    if |view| > 0 {
      var m, rest := view[0], view[1..];
      LineRoundTrip(m, Lines(rest));
      LinesRoundTrip(rest);
      ParseLinesStep(Line(m) + Lines(rest), m, rest);
      assert [m] + rest == view;
    }
  }

  /** When no title or genre holds a comma or a line break, the export can be read back
      into exactly the filtered view, in order. */
  lemma CsvRoundTrip(view: seq<Movie>)
    requires forall i :: 0 <= i < |view| ==> PlainFields(view[i])
    ensures ParseContent(Content(view)) == Some(view)
  {
    var n := |DataUriPrefix + HeaderLine|;
    var s := Content(view);
    assert s[..n] == DataUriPrefix + HeaderLine;
    assert s[n..] == Lines(view);
    LinesRoundTrip(view);
  }

  /** Without quoting, a comma inside a field is indistinguishable from a separator: two
      different views can produce the same file. */
  lemma UnquotedFieldsCollide()
    ensures Movie("A,B", "Drama", 2001) != Movie("A", "B,Drama", 2001)
    ensures Content([Movie("A,B", "Drama", 2001)]) == Content([Movie("A", "B,Drama", 2001)])
  {
    var d := IntToDecimal(2001);
    assert Line(Movie("A,B", "Drama", 2001)) == Line(Movie("A", "B,Drama", 2001));
  }

  /** One record `A`, `Drama`, 2001 gives exactly the header line and `A,Drama,2001`. */
  lemma SingleRecordExample()
    ensures Content([Movie("A", "Drama", 2001)]) == DataUriPrefix + HeaderLine + "A,Drama,2001\n"
  {
    assert NatToDecimal(2) == "2";
    assert NatToDecimal(20) == "20";
    assert NatToDecimal(200) == "200";
    assert NatToDecimal(2001) == "2001";
    assert [Movie("A", "Drama", 2001)][1..] == [];
  }
}
