/** The filter engine of `filtrarPeliculas`: a stable AND-filter over the catalogue where an
    empty genre or a year of 0 stands for "no constraint on this field". */
module Filtering {
  import opened Movies
  import opened Sequences

  /** The two filter inputs, `filtroGenero` and `filtroAnio`. */
  datatype Criteria = Criteria(genero: string, anio: int)

  /** The criteria the component starts with: no constraint at all. */
  const NoCriteria: Criteria := Criteria("", 0)

  /** What the callback given to `Array.prototype.filter` answers for one record: rejected
      when a non-empty genre is set and differs, or a non-zero year is set and differs. */
  predicate Keeps(c: Criteria, m: Movie) {
    if c.genero != "" && m.genero != c.genero then false
    else if c.anio != 0 && m.lanzamiento != c.anio then false
    else true
  }

  /** The intended meaning of the criteria, field by field. */
  predicate Selected(m: Movie, c: Criteria) {
    && (c.genero == "" || m.genero == c.genero)
    && (c.anio == 0 || m.lanzamiento == c.anio)
  }

  /** `peliculas.filter(...)`: the records the callback keeps, in catalogue order. */
  function ApplyFilter(ms: seq<Movie>, c: Criteria): (r: seq<Movie>)
    ensures |r| <= |ms|
    ensures IsSubsequence(r, ms)
    ensures forall i :: 0 <= i < |r| ==> Selected(r[i], c)
    decreases |ms|
  {
    if |ms| == 0 then
      []
    else
      var rest := ApplyFilter(ms[1..], c);
      if Keeps(c, ms[0]) then [ms[0]] + rest else rest
  }

  /** A record is in the view iff it is in the catalogue and meets the criteria. */
  lemma {:induction false} FilterMembership(ms: seq<Movie>, c: Criteria)
    ensures forall m :: m in ApplyFilter(ms, c) <==> m in ms && Selected(m, c)
    decreases |ms|
  {
    if |ms| > 0 {
      FilterMembership(ms[1..], c);
      assert ms == [ms[0]] + ms[1..];
    }
  }

  /** Each record meeting the criteria appears in the view as often as in the catalogue;
      every other record not at all. */
  lemma {:induction false} FilterMultiplicity(ms: seq<Movie>, c: Criteria)
    ensures forall m :: multiset(ApplyFilter(ms, c))[m]
                     == if Selected(m, c) then multiset(ms)[m] else 0
    decreases |ms|
  {
    if |ms| > 0 {
      FilterMultiplicity(ms[1..], c);
      assert ms == [ms[0]] + ms[1..];
    }
  }

  /** With no genre and year 0, filtering returns the catalogue unchanged. */
  lemma {:induction false} NoCriteriaIsIdentity(ms: seq<Movie>, c: Criteria)
    requires c.genero == "" && c.anio == 0
    ensures ApplyFilter(ms, c) == ms
    decreases |ms|
  {
    if |ms| > 0 {
      assert Keeps(c, ms[0]);
      assert ApplyFilter(ms, c) == [ms[0]] + ApplyFilter(ms[1..], c);
      NoCriteriaIsIdentity(ms[1..], c);
      assert ms == [ms[0]] + ms[1..];
    }
  }

  /** Filtering the filtered view again with the same criteria yields the same view. */
  lemma {:induction false} FilterIdempotent(ms: seq<Movie>, c: Criteria)
    ensures ApplyFilter(ApplyFilter(ms, c), c) == ApplyFilter(ms, c)
    decreases |ms|
  {
    if |ms| > 0 {
      FilterIdempotent(ms[1..], c);
      var rest := ApplyFilter(ms[1..], c);
      if Keeps(c, ms[0]) {
        assert ([ms[0]] + rest)[1..] == rest;
      }
    }
  }

  /** Narrowing by genre and then by year gives the same view as filtering by both at once. */
  lemma {:induction false} FilterComposes(ms: seq<Movie>, g: string, y: int)
    ensures ApplyFilter(ApplyFilter(ms, Criteria(g, 0)), Criteria("", y))
         == ApplyFilter(ms, Criteria(g, y))
    decreases |ms|
  {
    if |ms| > 0 {
      FilterComposes(ms[1..], g, y);
      var rest := ApplyFilter(ms[1..], Criteria(g, 0));
      if Keeps(Criteria(g, 0), ms[0]) {
        assert ([ms[0]] + rest)[1..] == rest;
      }
    }
  }

  /** Two Drama records (2001, 2010) and one Comedy (2015): the genre filter keeps the two
      Drama records in catalogue order. */
  lemma DramaScenario()
    ensures var a, b, c := Movie("A", "Drama", 2001), Movie("B", "Drama", 2010),
                           Movie("C", "Comedy", 2015);
            ApplyFilter([a, b, c], Criteria("Drama", 0)) == [a, b]
  {
    var a, b, c := Movie("A", "Drama", 2001), Movie("B", "Drama", 2010),
                   Movie("C", "Comedy", 2015);
    var drama := Criteria("Drama", 0);
    assert [a, b, c][1..] == [b, c] && [b, c][1..] == [c] && [c][1..] == [];
    assert ApplyFilter([c], drama) == [];
    assert ApplyFilter([b, c], drama) == [b];
  }

  /** Narrowing the same catalogue further by the year 2001 keeps exactly one record. */
  lemma DramaYearScenario()
    ensures var a, b, c := Movie("A", "Drama", 2001), Movie("B", "Drama", 2010),
                           Movie("C", "Comedy", 2015);
            ApplyFilter([a, b, c], Criteria("Drama", 2001)) == [a]
  {
    var a, b, c := Movie("A", "Drama", 2001), Movie("B", "Drama", 2010),
                   Movie("C", "Comedy", 2015);
    var both := Criteria("Drama", 2001);
    assert [a, b, c][1..] == [b, c] && [b, c][1..] == [c] && [c][1..] == [];
    assert ApplyFilter([c], both) == [];
    assert ApplyFilter([b, c], both) == [];
  }
}
