/**
 * The movie catalog: the rows of the loaded table, in row order, and the
 * title lookup that `recommend` performs with a boolean mask and `.index[0]`.
 * The table is assumed to carry pandas' default RangeIndex, so a row label
 * and its position are the same number.
 */
module Catalog {

  import opened Wrappers

  type MovieId = int

  /** One row of the table: the TMDb identifier and the display title. */
  datatype Movie = Movie(movieId: MovieId, title: string)

  /**
   * The row labels selected by the mask `movies["title"] == query`, in row
   * order: exactly the rows whose title equals the query (case-sensitive,
   * no normalisation), each once, in ascending order.
   */
  function MatchingRows(movies: seq<Movie>, query: string): (rows: seq<nat>)
    ensures forall k :: 0 <= k < |rows| ==> rows[k] < |movies| && movies[rows[k]].title == query
    ensures forall j :: 0 <= j < |movies| && movies[j].title == query ==> j in rows
    ensures forall k, l :: 0 <= k < l < |rows| ==> rows[k] < rows[l]
  {
    if movies == [] then []
    else
      var last := |movies| - 1;
      MatchingRows(movies[..last], query) + (if movies[last].title == query then [last] else [])
  }

  /**
   * `movies[movies["title"] == query].index[0]`: the first matching row, or
   * None where pandas raises IndexError because nothing matched.
   */
  function ResolveTitle(movies: seq<Movie>, query: string): (r: Option<nat>)
    ensures r.Some? ==> r.value < |movies| && movies[r.value].title == query
    ensures r.Some? ==> forall j :: 0 <= j < r.value ==> movies[j].title != query
    ensures r.None? <==> forall j :: 0 <= j < |movies| ==> movies[j].title != query
  {
    var rows := MatchingRows(movies, query);
    if |rows| == 0 then None
    else
      Some(rows[0])
  }
}
