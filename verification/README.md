# Movie report component — verified functional model

This project models the logic of `ReportePeliculasComponent`, an Angular component that
loads a catalogue of movies (`titulo`, `genero`, `lanzamiento`), lets the user narrow it by
genre and release year, and exports the narrowed view as a PDF table, a spreadsheet or a
CSV file. The model covers the parts that are pure data transformation:

- the filter engine of `filtrarPeliculas`: a stable AND-filter where an empty genre or the
  year `0` means "no constraint" (`filter.dfy`);
- the unique-genre and unique-year lists of `obtenerGenerosUnicos` / `obtenerAniosUnicos`,
  built by adding every value to a JavaScript `Set` and reading it back in insertion order
  (`sequences.dfy`, `catalog.dfy`);
- the text `exportarCSV` builds before URI-encoding it: data-URI prefix, fixed header line,
  one unquoted comma-joined line per record (`csv.dfy`);
- the document definition of `generarPDF`, in particular the table `body`: a header row of
  three labels and one three-cell row per record (`pdf.dfy`);
- the integer-to-decimal rendering both exports use (`decimal.dfy`);
- the component's state (`peliculas`, `peliculasFiltradas`, `generos`, `anios`,
  `filtroGenero`, `filtroAnio`) with its transitions: the load continuation, the filter
  action, the two criteria inputs and the read-only export actions (`component.dfy`).

Every operation has a partner it is proved against: the filter against a field-by-field
reading of the criteria (membership iff, multiplicities, subsequence), the unique lists
against the "first-seen order" characterisation (proved to determine them uniquely), the
CSV text and the PDF table against parsers that read them back, and the state transitions
against a state invariant preserved by every sequence of user actions.

Points where the code is easy to misread:

- The filter tests the genre by JavaScript truthiness (`this.filtroGenero && ...`); for a
  string that is "non-empty", which is how `Keeps` reads it.
- The CSV text starts with the prefix `data:text/csv;charset=utf-8,` before the header
  line; the single-record example (`SingleRecordExample`) includes it.
- The load continuation sets the view to the whole catalogue even when criteria were
  already entered; the view is only narrowed when the filter action runs.

## Model

| member | source | states |
|---|---|---|
| Decimal.IntToDecimal | src/app/reporte-peliculas/reporte-peliculas.component.ts:51 | `lanzamiento.toString()` is the canonical numeral: `-` first exactly for negative years, then digits with no leading zero (only zero itself renders as `0`, and never `-0`), and no comma or line break |
| Decimal.CanonicalIsRendering | src/app/reporte-peliculas/reporte-peliculas.component.ts:51 | any canonical numeral that reads back as a year is exactly that year's rendering, so the rendering is pinned down by the round trip |
| Decimal.IntRoundTrip | src/app/reporte-peliculas/reporte-peliculas.component.ts:51 | reading the rendered year back gives the year, so the rendering loses nothing |
| Decimal.IntToDecimalInjective | src/app/reporte-peliculas/reporte-peliculas.component.ts:112 | two years render to the same text exactly when they are equal |
| Sequences.Distinct | src/app/reporte-peliculas/reporte-peliculas.component.ts:124-126 | filling an insertion-ordered set and reading it back never gives more values than were added |
| Sequences.DistinctMembers | src/app/reporte-peliculas/reporte-peliculas.component.ts:124-126 | the set read back has no repeats and holds every value added and nothing else |
| Sequences.DistinctOrder | src/app/reporte-peliculas/reporte-peliculas.component.ts:124-126 | the set read back lists its values in the order each was first added |
| Sequences.DistinctCharacterised | src/app/reporte-peliculas/reporte-peliculas.component.ts:123-127 | any list of exactly the input's values in first-seen order equals the set-based result |
| Sequences.FirstSeenOrderUnique | src/app/reporte-peliculas/reporte-peliculas.component.ts:129-133 | two lists of the same values, both in first-seen order of one sequence, are equal |
| Sequences.DistinctIdempotent | src/app/reporte-peliculas/reporte-peliculas.component.ts:123-127 | de-duplicating an already de-duplicated list changes nothing |
| Catalog.UniqueGenres | src/app/reporte-peliculas/reporte-peliculas.component.ts:123-127 | there are at most as many genres listed as records |
| Catalog.UniqueYears | src/app/reporte-peliculas/reporte-peliculas.component.ts:129-133 | there are at most as many years listed as records |
| Catalog.UniqueGenresSpec | src/app/reporte-peliculas/reporte-peliculas.component.ts:123-127 | a genre is listed iff some record has it, once, in order of first appearance in the catalogue |
| Catalog.UniqueYearsSpec | src/app/reporte-peliculas/reporte-peliculas.component.ts:129-133 | a year is listed iff some record has it, once, in order of first appearance in the catalogue |
| Catalog.CollectUnique | src/app/reporte-peliculas/reporte-peliculas.component.ts:124-126 | the `Set` + `forEach` + `Array.from` loop yields a duplicate-free list of every value in first-seen order |
| Catalog.CollectGenres | src/app/reporte-peliculas/reporte-peliculas.component.ts:123-127 | the genre loop lists exactly the catalogue's genres |
| Catalog.CollectYears | src/app/reporte-peliculas/reporte-peliculas.component.ts:129-133 | the year loop lists exactly the catalogue's years |
| Filtering.ApplyFilter | src/app/reporte-peliculas/reporte-peliculas.component.ts:85-95 | the view is an order-preserving subsequence of the catalogue, no longer than it, and every record in it has (genre filter empty or equal genre) and (year filter 0 or equal year) |
| Filtering.FilterMembership | src/app/reporte-peliculas/reporte-peliculas.component.ts:85-95 | a record is in the view iff it is in the catalogue and meets both field conditions |
| Filtering.FilterMultiplicity | src/app/reporte-peliculas/reporte-peliculas.component.ts:85-95 | a record meeting the criteria appears in the view exactly as often as in the catalogue, any other record never |
| Filtering.NoCriteriaIsIdentity | src/app/reporte-peliculas/reporte-peliculas.component.ts:84-95 | with empty genre and year 0 the filter returns the catalogue unchanged |
| Filtering.FilterIdempotent | src/app/reporte-peliculas/reporte-peliculas.component.ts:85-95 | filtering the filtered view again with the same criteria gives the same view |
| Filtering.FilterComposes | src/app/reporte-peliculas/reporte-peliculas.component.ts:86-92 | narrowing by genre, then by year, equals filtering by both at once |
| Filtering.DramaScenario | src/app/reporte-peliculas/reporte-peliculas.component.ts:85-95 | two Drama records and one Comedy: genre "Drama" keeps both Drama records in catalogue order |
| Filtering.DramaYearScenario | src/app/reporte-peliculas/reporte-peliculas.component.ts:85-95 | the same catalogue with genre "Drama" and year 2001 keeps exactly the 2001 Drama record |
| CsvExport.ExportCsv | src/app/reporte-peliculas/reporte-peliculas.component.ts:107-113 | the `+=` accumulation over the view yields prefix, header line, then each record's line in view order; with single-line fields it has 1 + (number of records) line breaks; with comma-free single-line fields it reads back as the view |
| CsvExport.LineCount | src/app/reporte-peliculas/reporte-peliculas.component.ts:108-113 | with no line break in titles or genres, the text holds 1 + (number of records) line breaks |
| CsvExport.CsvRoundTrip | src/app/reporte-peliculas/reporte-peliculas.component.ts:108-113 | with no comma or line break in titles or genres, parsing the text gives back the view, in order |
| CsvExport.UnquotedFieldsCollide | src/app/reporte-peliculas/reporte-peliculas.component.ts:112 | since fields are not quoted, two different records can produce the same text |
| CsvExport.SingleRecordExample | src/app/reporte-peliculas/reporte-peliculas.component.ts:108-112 | the record A / Drama / 2001 gives the header line followed by `A,Drama,2001` and a line break |
| PdfExport.Body | src/app/reporte-peliculas/reporte-peliculas.component.ts:42-52 | 1 + (number of records) rows; the first is the three header labels; every row has three cells; row k holds record k's title and genre, in table-cell style |
| PdfExport.YearCells | src/app/reporte-peliculas/reporte-peliculas.component.ts:51 | the third cell of every record row is a canonical decimal numeral that reads back as that record's year, hence (with `Decimal.CanonicalIsRendering`) exactly `lanzamiento.toString()` |
| PdfExport.Report | src/app/reporte-peliculas/reporte-peliculas.component.ts:35-56 | one header row, and every body row has as many cells as the table has column widths |
| PdfExport.TableRoundTrip | src/app/reporte-peliculas/reporte-peliculas.component.ts:42-52 | decoding the table body gives back the view, whatever the fields contain |
| PdfExport.EmptyViewIsHeaderOnly | src/app/reporte-peliculas/reporte-peliculas.component.ts:42-53 | an empty view gives a header-only body |
| ReportComponent.Initial | src/app/reporte-peliculas/reporte-peliculas.component.ts:14-19 | the initial state is empty, has no criteria and satisfies the state invariant |
| ReportComponent.Load | src/app/reporte-peliculas/reporte-peliculas.component.ts:26-31 | after load the catalogue and the view are the data, the drop-downs list exactly the data's genres and years without repeats, the criteria are untouched, and the invariant holds |
| ReportComponent.Filter | src/app/reporte-peliculas/reporte-peliculas.component.ts:84-96 | only the view changes; it becomes the catalogue records meeting the criteria, as a subsequence, with each such record as many times as in the catalogue and every other record absent; the invariant is preserved |
| ReportComponent.CsvOf | src/app/reporte-peliculas/reporte-peliculas.component.ts:107-113 | the text handed to `encodeURI` is built from the filtered view: with plain fields it reads back as exactly `peliculasFiltradas` |
| ReportComponent.PdfOf | src/app/reporte-peliculas/reporte-peliculas.component.ts:35-56 | the PDF table reads back as exactly `peliculasFiltradas` |
| ReportComponent.ExportsReadOnlyTheView | src/app/reporte-peliculas/reporte-peliculas.component.ts:35-113 | the exports leave the state unchanged, and two states with the same filtered view export the same artefact whatever their catalogues or criteria |
| ReportComponent.ExportAfterFilter | src/app/reporte-peliculas/reporte-peliculas.component.ts:84-96 | after filtering, the PDF table holds exactly the catalogue records meeting the criteria, and every record of the view meets them |
| ReportComponent.SetGenre | src/app/reporte-peliculas/reporte-peliculas.component.ts:18 | entering a genre changes `filtroGenero` only and keeps the invariant |
| ReportComponent.SetYear | src/app/reporte-peliculas/reporte-peliculas.component.ts:19 | entering a year changes `filtroAnio` only and keeps the invariant |
| ReportComponent.StepKeepsValid | src/app/reporte-peliculas/reporte-peliculas.component.ts:25-121 | every single user action (load, criteria input, filter, any export) keeps the state invariant |
| ReportComponent.RunKeepsValid | src/app/reporte-peliculas/reporte-peliculas.component.ts:25-121 | any sequence of loads, criteria changes, filters and exports keeps the view equal to the catalogue filtered under some criteria (so a subsequence of it) and the drop-downs those of the full catalogue |
| ReportComponent.ReachableIsValid | src/app/reporte-peliculas/reporte-peliculas.component.ts:14-31 | every state reachable from the initial one satisfies the invariant |
| ReportComponent.LoadThenDefaultFilter | src/app/reporte-peliculas/reporte-peliculas.component.ts:26-30 | with default criteria, filtering right after load leaves the state as load left it |
| ReportComponent.FilterTwice | src/app/reporte-peliculas/reporte-peliculas.component.ts:84-96 | pressing filter twice is the same as pressing it once |

## Left out

- The HTTP fetch of `./assets/peliculas.json` and its subscription (line 26): asynchronous I/O. Only the continuation is modelled, as `Load`; a failed fetch simply never calls it, so the model has no error state either.
- The JSON data are untyped in the component (`any[]`); the model assumes every record has a string title and genre and an integral year.
- The font table setup in the constructor (line 22), the style dictionary (lines 58-74) and `createPdf(...).open()` (line 81): foreign rendering and constant styling. Styles appear in the model only by name.
- `exportarExcel` (lines 98-105): it only calls the spreadsheet library, `Blob` and `saveAs`, whose code is not part of this model.
- `encodeURI`, the anchor element and its click (lines 115-120): browser side effects. The model stops at the string handed to `encodeURI`.
- ReportComponent.CsvOf: states what the text handed to `encodeURI` holds, not what the browser saves. `encodeURI` leaves `#` unescaped, so a `#` in any title or genre starts the URI's fragment. The saved file is then cut off at that character, and the rest of that row and every later row are lost. The downloaded file therefore matches `CsvOf` only when no field contains `#`.
- The page template is not part of this model; the two criteria inputs it binds are modelled as `SetGenre` and `SetYear`. If the template delivered the year as a string, the loose comparison at line 90 would still compare numerically, but `filtroAnio !== 0` would then hold even for `"0"`; the model types the year as an integer, where both comparisons are plain equality.
- Decimal.IntToDecimal: renders integers only; it does not model JavaScript's exponent notation for magnitudes of 10^21 and above, nor the loss of precision beyond 2^53, because release years never reach either.
- The error reporting for failed loads or exports and the CSV quoting that a corrected component would add are not in the component, so they are not modelled; the CSV text is modelled unquoted, as written, and `UnquotedFieldsCollide` shows what that costs.
- Decimal.ParseInt, CsvExport.ParseContent and PdfExport.DecodeBody are reading aids for the round-trip lemmas, not part of the component; `ParseInt` also accepts leading zeros.
