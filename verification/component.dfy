/** The state of `ReportePeliculasComponent` and the steps that change it: the load
    continuation, the filter action, and the two filter inputs bound in the page template.
    The export actions leave the state alone and hand out an artefact built from the
    filtered view only (`CsvOf`, `PdfOf`). */
module ReportComponent {
  import opened Movies
  import opened Sequences
  import opened Catalog
  import opened Filtering
  import opened Options
  import CsvExport
  import PdfExport

  datatype State = State(
    peliculas: seq<Movie>,
    peliculasFiltradas: seq<Movie>,
    generos: seq<string>,
    anios: seq<int>,
    filtroGenero: string,
    filtroAnio: int)
  {
    function Criteria(): Filtering.Criteria {
      Filtering.Criteria(filtroGenero, filtroAnio)
    }
  }

  /** What the state promises between any two user actions: the view is the catalogue under
      some criteria (hence an order-preserving subsequence of it), and the drop-down lists are
      those of the full catalogue. */
  ghost predicate Valid(s: State) {
    && IsSubsequence(s.peliculasFiltradas, s.peliculas)
    && (exists c :: s.peliculasFiltradas == ApplyFilter(s.peliculas, c))
    && s.generos == UniqueGenres(s.peliculas)
    && s.anios == UniqueYears(s.peliculas)
  }

  /** The field initialisers: everything empty, no criteria. */
  function Initial(): (s: State)
    ensures Valid(s)
    ensures s.Criteria() == NoCriteria
    ensures |s.peliculas| == 0 && |s.peliculasFiltradas| == 0
  {
    assert ApplyFilter([], NoCriteria) == [];
    State([], [], [], [], "", 0)
  }

  /** The continuation of the catalogue fetch: the data becomes both the catalogue and the
      view, and the drop-down lists are computed from it. The criteria are left as they are. */
  function Load(s: State, data: seq<Movie>): (t: State)
    ensures Valid(t)
    ensures t.peliculas == data && t.peliculasFiltradas == data
    ensures forall g :: g in t.generos <==> exists i :: 0 <= i < |data| && data[i].genero == g
    ensures forall y :: y in t.anios <==> exists i :: 0 <= i < |data| && data[i].lanzamiento == y
    ensures NoDuplicates(t.generos) && NoDuplicates(t.anios)
    ensures t.filtroGenero == s.filtroGenero && t.filtroAnio == s.filtroAnio
  {
    SubsequenceReflexive(data);
    NoCriteriaIsIdentity(data, NoCriteria);
    UniqueGenresSpec(data);
    UniqueYearsSpec(data);
    s.(peliculas := data, peliculasFiltradas := data,
       generos := UniqueGenres(data), anios := UniqueYears(data))
  }

  /** `filtrarPeliculas`: only the view is reassigned, to the records of the full catalogue
      that meet the current criteria. */
  function Filter(s: State): (t: State)
    ensures t == s.(peliculasFiltradas := t.peliculasFiltradas)
    ensures IsSubsequence(t.peliculasFiltradas, s.peliculas)
    ensures forall m :: m in t.peliculasFiltradas <==> m in s.peliculas && Selected(m, s.Criteria())
    ensures forall m ::
      multiset(t.peliculasFiltradas)[m] == if Selected(m, s.Criteria()) then multiset(s.peliculas)[m] else 0
    ensures Valid(s) ==> Valid(t)
  {
    FilterMembership(s.peliculas, s.Criteria());
    FilterMultiplicity(s.peliculas, s.Criteria());
    assert s.(peliculasFiltradas := ApplyFilter(s.peliculas, s.Criteria())).peliculasFiltradas
      == ApplyFilter(s.peliculas, s.Criteria());
    s.(peliculasFiltradas := ApplyFilter(s.peliculas, s.Criteria()))
  }

  /** The template's genre input writes `filtroGenero` and nothing else. */
  function SetGenre(s: State, g: string): (t: State)
    ensures t == s.(filtroGenero := g)
    ensures Valid(s) ==> Valid(t)
  {
    State(s.peliculas, s.peliculasFiltradas, s.generos, s.anios, g, s.filtroAnio)
  }

  /** The template's year input writes `filtroAnio` and nothing else. */
  function SetYear(s: State, y: int): (t: State)
    ensures t == s.(filtroAnio := y)
    ensures Valid(s) ==> Valid(t)
  {
    State(s.peliculas, s.peliculasFiltradas, s.generos, s.anios, s.filtroGenero, y)
  }

  datatype Action =
    | Loaded(data: seq<Movie>)
    | ChooseGenre(genero: string)
    | ChooseYear(anio: int)
    | FilterNow
    | ExportPdf
    | ExportExcel
    | ExportCsv

  /** What an action hands to the browser besides the new state. */
  datatype Download = NoDownload | CsvFile(text: string) | PdfFile(doc: PdfExport.Document)

  /** The text `exportarCSV` hands to `encodeURI`: built from the filtered view, so with
      plain fields it reads back as that view and not as the catalogue. */
  function CsvOf(s: State): (text: string)
    ensures (forall i :: 0 <= i < |s.peliculasFiltradas| ==> CsvExport.PlainFields(s.peliculasFiltradas[i]))
        ==> CsvExport.ParseContent(text) == Some(s.peliculasFiltradas)
  {
    var view := s.peliculasFiltradas;
    assert (forall i :: 0 <= i < |view| ==> CsvExport.PlainFields(view[i]))
        ==> CsvExport.ParseContent(CsvExport.Content(view)) == Some(view) by {
      if forall i :: 0 <= i < |view| ==> CsvExport.PlainFields(view[i]) {
        CsvExport.CsvRoundTrip(view);
      }
    }
    CsvExport.Content(view)
  }

  /** The document `generarPDF` opens: its table reads back as the filtered view. */
  function PdfOf(s: State): (d: PdfExport.Document)
    ensures PdfExport.DecodeBody(d.table.body) == Some(s.peliculasFiltradas)
  {
    PdfExport.TableRoundTrip(s.peliculasFiltradas);
    PdfExport.Report(s.peliculasFiltradas)
  }

  /** The artefact of an action: the two document exports produce one, everything else
      (including the spreadsheet export, which is not part of this model) produces none. */
  function Output(s: State, a: Action): Download {
    match a
    case ExportPdf => PdfFile(PdfOf(s))
    case ExportCsv => CsvFile(CsvOf(s))
    case _ => NoDownload
  }

  function Step(s: State, a: Action): State {
    match a
    case Loaded(data) => Load(s, data)
    case ChooseGenre(g) => SetGenre(s, g)
    case ChooseYear(y) => SetYear(s, y)
    case FilterNow => Filter(s)
    case ExportPdf => s
    case ExportExcel => s
    case ExportCsv => s
  }

  function Run(s: State, actions: seq<Action>): State
    decreases |actions|
  {
    if |actions| == 0 then s else Run(Step(s, actions[0]), actions[1..])
  }

  /** No single user action breaks the invariant; exports do not change the state at all. */
  lemma StepKeepsValid(s: State, a: Action)
    requires Valid(s)
    ensures Valid(Step(s, a))
  {
  }

  /** The exports leave the state as it is and depend on the filtered view alone: two states
      with the same view export the same artefact, whatever their catalogues or criteria. */
  lemma ExportsReadOnlyTheView(s: State, t: State, a: Action)
    requires a.ExportPdf? || a.ExportExcel? || a.ExportCsv?
    requires s.peliculasFiltradas == t.peliculasFiltradas
    ensures Step(s, a) == s
    ensures Output(s, a) == Output(t, a)
  {
  }

  /** Exporting after filtering downloads only the records that meet the criteria. */
  lemma ExportAfterFilter(s: State)
    ensures PdfExport.DecodeBody(PdfOf(Filter(s)).table.body) == Some(ApplyFilter(s.peliculas, s.Criteria()))
    ensures forall i :: 0 <= i < |Filter(s).peliculasFiltradas| ==>
      Selected(Filter(s).peliculasFiltradas[i], s.Criteria())
  {
  }

  /** Every sequence of user actions keeps a valid state valid. */
  lemma {:induction false} RunKeepsValid(s: State, actions: seq<Action>)
    requires Valid(s)
    ensures Valid(Run(s, actions))
    decreases |actions|
  {
    if |actions| > 0 {
      var t := Step(s, actions[0]);
      StepKeepsValid(s, actions[0]);
      assert Run(s, actions) == Run(t, actions[1..]);
      RunKeepsValid(t, actions[1..]);
    }
  }

  /** Every state the component can reach from its field initialisers is valid. */
  lemma ReachableIsValid(actions: seq<Action>)
    ensures Valid(Run(Initial(), actions))
  {
    RunKeepsValid(Initial(), actions);
  }

  /** Right after load, the view is the whole catalogue; with default criteria, filtering
      it changes nothing. */
  lemma LoadThenDefaultFilter(s: State, data: seq<Movie>)
    requires s.Criteria() == NoCriteria
    ensures Filter(Load(s, data)) == Load(s, data)
  {
    NoCriteriaIsIdentity(data, NoCriteria);
  }

  /** Pressing filter twice is the same as pressing it once. */
  lemma FilterTwice(s: State)
    ensures Filter(Filter(s)) == Filter(s)
  {
  }
}
