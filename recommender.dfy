/**
 * `recommend(movie_title)`: resolve the title to a row, rank that row of the
 * similarity matrix, keep positions 1 to 5 of the ranking and list the title
 * and movie id of each kept column. Every IndexError raised inside the `try`
 * ends the call with an empty list.
 */
module Recommender {

  import opened Wrappers
  import opened Catalog
  import opened Ranking

  /** One entry of the result; the movie id stands in for the poster URL. */
  datatype Recommendation = Recommendation(title: string, movieId: MovieId)

  function EntryFor(m: Movie): Recommendation {
    Recommendation(m.title, m.movieId)
  }

  /** The loaded artifacts agree: one matrix row and one matrix column per catalog row. */
  predicate SquareMatrix(movies: seq<Movie>, similarity: seq<seq<Score>>) {
    && |similarity| == |movies|
    && forall i :: 0 <= i < |similarity| ==> |similarity[i]| == |movies|
  }

  /**
   * What `recommend` returns. The empty list stands for each caught IndexError:
   * no title matches, the matrix has no row at the resolved index, or a
   * picked column has no catalog row for `movies.iloc`.
   */
  function Recommendations(movies: seq<Movie>, similarity: seq<seq<Score>>, query: string): (r: seq<Recommendation>)
    ensures |r| <= TopCount
    ensures ResolveTitle(movies, query).None? ==> r == []
    ensures ResolveTitle(movies, query).Some? && ResolveTitle(movies, query).value >= |similarity| ==> r == []
    ensures forall e :: e in r ==> exists j :: 0 <= j < |movies| && e == EntryFor(movies[j])
  {
    match ResolveTitle(movies, query)
    case None => []
    case Some(index) =>
      if index >= |similarity| then []
      else
        var picks := TopPicks(similarity[index]);
        if exists k :: 0 <= k < |picks| && picks[k].0 >= |movies| then []
        else seq(|picks|, k requires 0 <= k < |picks| => EntryFor(movies[picks[k].0]))
  }

  /**
   * The `for i, _ in sorted_scores` loop: appends one entry per pick, in pick
   * order. `movies.iloc[i]` raises IndexError for a column beyond the
   * catalog, which abandons the whole list (None).
   */
  method CollectRecommendations(movies: seq<Movie>, picks: seq<Scored>) returns (r: Option<seq<Recommendation>>)
    ensures r.Some? <==> forall k :: 0 <= k < |picks| ==> picks[k].0 < |movies|
    ensures r.Some? ==> |r.value| == |picks|
    ensures r.Some? ==> forall k :: 0 <= k < |picks| ==>
      r.value[k].title == movies[picks[k].0].title && r.value[k].movieId == movies[picks[k].0].movieId
  {
    var recommended: seq<Recommendation> := [];
    for n := 0 to |picks|
      invariant |recommended| == n
      invariant forall k :: 0 <= k < n ==> picks[k].0 < |movies|
      invariant forall k :: 0 <= k < n ==> recommended[k] == EntryFor(movies[picks[k].0])
    {
      var (i, _) := picks[n];
      if i >= |movies| {
        return None;
      }
      var movie := movies[i];
      recommended := recommended + [EntryFor(movie)];
    }
    return Some(recommended);
  }

  /** The whole lookup, with the list built by the loop above. */
  method Recommend(movies: seq<Movie>, similarity: seq<seq<Score>>, query: string) returns (r: seq<Recommendation>)
    ensures r == Recommendations(movies, similarity, query)
    ensures (forall j :: 0 <= j < |movies| ==> movies[j].title != query) ==> r == []
  {
    var resolved := ResolveTitle(movies, query);
    if resolved.None? {
      return [];
    }
    var index := resolved.value;
    if index >= |similarity| {
      return [];
    }
    var picks := TopPicks(similarity[index]);
    var collected := CollectRecommendations(movies, picks);
    if collected.None? {
      return [];
    }
    r := collected.value;
  }

  /**
   * With consistent artifacts and a known title: the result has
   * min(5, N - 1) entries, the k-th naming the catalog row of the k-th pick
   * of the first matching row's ranking.
   */
  lemma KnownTitleRecommendations(movies: seq<Movie>, similarity: seq<seq<Score>>, query: string, index: nat)
    requires SquareMatrix(movies, similarity)
    requires index < |movies| && movies[index].title == query
    requires forall j :: 0 <= j < index ==> movies[j].title != query
    ensures var r := Recommendations(movies, similarity, query);
      && |r| == (if |movies| - 1 < TopCount then |movies| - 1 else TopCount)
      && forall k :: 0 <= k < |r| ==> r[k] == EntryFor(movies[TopPicks(similarity[index])[k].0])
  {
  }

  /**
   * The query's own row is picked exactly when it ranks 1 to 5 in its own
   * similarity row; it is left out when it is that row's first maximum (it
   * sorts first and `[1:6]` drops it) or when it ranks below position 5.
   * Where it is picked, the returned list names the query movie itself there.
   */
  lemma QueryRowRecommendedIff(movies: seq<Movie>, similarity: seq<seq<Score>>, query: string, index: nat)
    requires SquareMatrix(movies, similarity)
    requires ResolveTitle(movies, query) == Some(index)
    ensures var picks := TopPicks(similarity[index]);
      (exists k :: 0 <= k < |picks| && picks[k].0 == index)
        <==> !IsFirstMaximum(similarity[index], index) && RankOf(similarity[index], index) <= TopCount
    ensures var picks := TopPicks(similarity[index]);
      forall k :: 0 <= k < |picks| && picks[k].0 == index ==>
        k < |Recommendations(movies, similarity, query)| && Recommendations(movies, similarity, query)[k] == EntryFor(movies[index])
  {
    PickedIffRanked(similarity[index], index);
    KnownTitleRecommendations(movies, similarity, query, index);
  }

  /**
   * Two movies with equal scores everywhere: the first sorts first and is
   * dropped, so asking for the second recommends the second itself.
   */
  lemma QueryMovieCanBeRecommended()
    ensures var movies := [Movie(1, "A"), Movie(2, "B")];
      Recommendations(movies, [[5, 5], [5, 5]], "B") == [Recommendation("B", 2)]
  {
  }

  /**
   * Four movies, the first one's row scoring 10, 9, 9, 1: the tie between
   * the second and third keeps column order, and all three others follow.
   */
  lemma FourMovieExample(movies: seq<Movie>, similarity: seq<seq<Score>>)
    requires movies == [Movie(1, "A"), Movie(2, "B"), Movie(3, "C"), Movie(4, "D")]
    requires similarity == [[10, 9, 9, 1], [9, 10, 5, 1], [9, 5, 10, 1], [1, 1, 1, 10]]
    ensures Recommendations(movies, similarity, "A")
      == [Recommendation("B", 2), Recommendation("C", 3), Recommendation("D", 4)]
  {
    assert SquareMatrix(movies, similarity);
    FourMoviePicks(similarity[0]);
    FourMovieResult(movies, similarity);
  }

  lemma FourMovieResult(movies: seq<Movie>, similarity: seq<seq<Score>>)
    requires movies == [Movie(1, "A"), Movie(2, "B"), Movie(3, "C"), Movie(4, "D")]
    requires SquareMatrix(movies, similarity)
    requires TopPicks(similarity[0]) == [(1, 9), (2, 9), (3, 1)]
    ensures Recommendations(movies, similarity, "A")
      == [Recommendation("B", 2), Recommendation("C", 3), Recommendation("D", 4)]
  {
    KnownTitleRecommendations(movies, similarity, "A", 0);
    var r, picks := Recommendations(movies, similarity, "A"), TopPicks(similarity[0]);
    assert r[0] == EntryFor(movies[picks[0].0]);
    assert r[1] == EntryFor(movies[picks[1].0]);
    assert r[2] == EntryFor(movies[picks[2].0]);
  }

  lemma FourMoviePicks(row: seq<Score>)
    requires row == [10, 9, 9, 1]
    ensures TopPicks(row) == [(1, 9), (2, 9), (3, 1)]
  {
    var ranked: seq<Scored> := [(0, 10), (1, 9), (2, 9), (3, 1)];
    assert Enumerate(row) == ranked;
    RankedRowUnique(row, ranked);
  }
}
