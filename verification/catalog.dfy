/** The unique-value lists shown in the filter drop-downs: every genre and every release
    year of the catalogue, once each, in the order the catalogue first mentions them. */
module Catalog {
  import opened Movies
  import opened Sequences

  /** The genre column of the catalogue, in catalogue order. */
  function Genres(ms: seq<Movie>): (gs: seq<string>)
    ensures |gs| == |ms|
    ensures forall i :: 0 <= i < |ms| ==> gs[i] == ms[i].genero
  {
    seq(|ms|, i requires 0 <= i < |ms| => ms[i].genero)
  }

  /** The release-year column of the catalogue, in catalogue order. */
  function Years(ms: seq<Movie>): (ys: seq<int>)
    ensures |ys| == |ms|
    ensures forall i :: 0 <= i < |ms| ==> ys[i] == ms[i].lanzamiento
  {
    seq(|ms|, i requires 0 <= i < |ms| => ms[i].lanzamiento)
  }

  /** `obtenerGenerosUnicos`: the catalogue's genres through an insertion-ordered set. */
  function UniqueGenres(ms: seq<Movie>): (r: seq<string>)
    ensures |r| <= |ms|
  {
    Distinct(Genres(ms))
  }

  /** `obtenerAniosUnicos`: the catalogue's years through an insertion-ordered set. */
  function UniqueYears(ms: seq<Movie>): (r: seq<int>)
    ensures |r| <= |ms|
  {
    Distinct(Years(ms))
  }

  /** A genre is listed iff some record has it, no genre twice, genres in first-seen order. */
  lemma UniqueGenresSpec(ms: seq<Movie>)
    ensures NoDuplicates(UniqueGenres(ms))
    ensures forall g :: g in UniqueGenres(ms) <==> exists i :: 0 <= i < |ms| && ms[i].genero == g
    ensures InFirstSeenOrder(UniqueGenres(ms), Genres(ms))
  {
    var gs := Genres(ms);
    DistinctSpec(gs);
    assert forall g :: g in Distinct(gs) <==> g in gs;
  }

  /** A year is listed iff some record has it, no year twice, years in first-seen order. */
  lemma UniqueYearsSpec(ms: seq<Movie>)
    ensures NoDuplicates(UniqueYears(ms))
    ensures forall y :: y in UniqueYears(ms) <==> exists i :: 0 <= i < |ms| && ms[i].lanzamiento == y
    ensures InFirstSeenOrder(UniqueYears(ms), Years(ms))
  {
    var ys := Years(ms);
    DistinctSpec(ys);
    assert forall y :: y in Distinct(ys) <==> y in ys;
  }

  /** The algorithm of `obtenerGenerosUnicos` and `obtenerAniosUnicos` as it runs: a `Set` filled by `forEach` and read back with
      `Array.from`. The set is kept as its membership (`seen`) plus its iteration order
      (`order`), which for a JavaScript `Set` is insertion order. */
  method CollectUnique<T(==)>(values: seq<T>) returns (order: seq<T>)
    ensures order == Distinct(values)
    ensures NoDuplicates(order)
    ensures forall i :: 0 <= i < |values| ==> values[i] in order
  {
    var seen: set<T> := {};
    order := [];
    var i := 0;
    while i < |values|
      invariant 0 <= i <= |values|
      invariant order == Distinct(values[..i])
      invariant forall x :: x in seen <==> x in order
    {
      var x := values[i];
      ghost var prefix := values[..i + 1];
      assert prefix[..i] == values[..i] && prefix[i] == x;
      assert Distinct(prefix) == InsertionOrderedAdd(Distinct(values[..i]), x);
      if x !in seen {
        seen := seen + {x};
        order := order + [x];
      }
      i := i + 1;
    }
    assert values[..i] == values;
    DistinctSpec(values);
  }

  /** The drop-down lists are exactly what the component's set-based loop produces. */
  method CollectGenres(ms: seq<Movie>) returns (generos: seq<string>)
    ensures generos == UniqueGenres(ms)
    ensures forall g :: g in generos <==> exists i :: 0 <= i < |ms| && ms[i].genero == g
  {
    generos := CollectUnique(Genres(ms));
    UniqueGenresSpec(ms);
  }

  method CollectYears(ms: seq<Movie>) returns (anios: seq<int>)
    ensures anios == UniqueYears(ms)
    ensures forall y :: y in anios <==> exists i :: 0 <= i < |ms| && ms[i].lanzamiento == y
  {
    anios := CollectUnique(Years(ms));
    UniqueYearsSpec(ms);
  }
}
