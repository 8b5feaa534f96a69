# Movie recommendation lookup

A model of the recommendation lookup of a small Streamlit movie recommender
(`recommend` in `app.py`). The catalog is the loaded movie table, one row per
movie (TMDb id and title); the similarity matrix has one row of scores per
movie. Given a title, `recommend`:

1. resolves the title to the first catalog row whose title equals it exactly
   (a boolean mask followed by `.index[0]`);
2. pairs every column of that row of the matrix with its score (`enumerate`),
   sorts the pairs by score with Python's stable `sorted(..., reverse=True)`
   and keeps the slice `[1:6]`: it drops the first pair of the sorted order
   and keeps at most the next five;
3. walks the kept pairs in order and appends, for each, the title of that
   catalog row and the poster of its movie id.

Any `IndexError` raised on the way is caught and turns into an empty list:
no matching title, a matrix without a row at the resolved index, or a kept
column beyond the catalog.

Modules:

- `Wrappers` (`wrappers.dfy`): the `Option` type used for caught errors.
- `Catalog` (`catalog.dfy`): `Movie`, the title mask (`MatchingRows`) and
  the first-match resolution (`ResolveTitle`).
- `Ranking` (`ranking.dfy`): `Enumerate`, the stable descending sort
  (`SortDesc`, an insertion sort that keeps equal scores in input order),
  the ranking order `Before` (higher score first, then lower column), the
  `[1:6]` slice (`DropFirstKeepFive`) and `TopPicks`, with the lemmas about
  ordering, tie-break, permutation, uniqueness and the dropped element.
- `Recommender` (`recommender.dfy`): `Recommendations`, the specification of
  the whole call; `CollectRecommendations`, the appending loop; `Recommend`,
  the call itself; and the lemmas about its result.

Three behaviours of the code are worth stating plainly, since a reader of a
recommender might expect otherwise; the model follows the code:

- The query row is not excluded by index. `[1:6]` drops whatever sorts
  first, which is the query row only when it holds the highest score and no
  lower column ties it. `QueryRowRecommendedIff` states exactly when the
  query row is recommended, and `QueryMovieCanBeRecommended` gives two movies
  with equal scores for which asking for the second recommends the second
  itself.
- No error reaches the caller: every `IndexError` in the `try` block becomes
  the empty list.
- The number of results is fixed by the slice `[1:6]`: at most five, with no
  parameter for it.

The table is assumed to carry pandas' default RangeIndex, so the label that
`.index[0]` returns is also the position used by `similarity[index]` and
`movies.iloc[i]`. Similarity scores are integers: only their order within
one row matters to the lookup.

## Model

| member | source | states |
|---|---|---|
| `Catalog.MatchingRows` | app.py:47 | the mask selects exactly the rows whose title equals the query (case-sensitive), each once, in ascending row order |
| `Catalog.ResolveTitle` | app.py:47 | the resolved row has the query as its title and no earlier row has it; None (the caught IndexError) exactly when no row has that title |
| `Ranking.Enumerate` | app.py:48 | one pair per column, the i-th being (i, score of column i) |
| `Ranking.Insert` | app.py:49 | inserting one pair into a sorted list adds exactly that pair (multiset) |
| `Ranking.SortDesc` | app.py:49 | the sorted list is a permutation of the input pairs |
| `Ranking.SortDescDescending` | app.py:49 | scores never increase along the sorted list, for any input |
| `Ranking.SortDescRanked` | app.py:49 | stability: for pairs in increasing column order, equal scores come out in ascending column order |
| `Ranking.RankedUnique` | app.py:49 | two ranked lists with the same pairs are equal, so any stable descending sort gives the same order |
| `Ranking.RankedRowUnique` | app.py:48-49 | any ranked listing of a row's enumerated pairs is the sorted row |
| `Ranking.RankedRow` | app.py:48-49 | the sorted row is a permutation of the enumerated row, ranked, and every column appears with its own score |
| `Ranking.DropFirstKeepFive` | app.py:49 | `[1:6]` has min(5, max(n - 1, 0)) elements, the k-th being element k + 1 of the input |
| `Ranking.TopPicks` | app.py:48-49 | the kept pairs number min(5, max(N - 1, 0)), are ranked (non-increasing scores, lower column first on ties) and are genuine (column, score) pairs of the row |
| `Ranking.DroppedIsFirstMaximum` | app.py:49 | the dropped pair is column q exactly when q holds the row's highest score and no lower column ties it |
| `Ranking.RankOf` | app.py:49 | every column sits at exactly one position of the sorted row |
| `Ranking.PickedIffRanked` | app.py:49 | a column is kept exactly when its position in the sorted row is 1 to 5; position 0 exactly when it is the row's first maximum |
| `Ranking.TopPicksBeatTheRest` | app.py:49 | top-K: a column neither dropped nor kept ranks after every kept pair |
| `Ranking.TopPicksDistinct` | app.py:49 | the kept pairs name distinct columns |
| `Recommender.Recommendations` | app.py:45-62 | at most five entries, each the title and id of some catalog row; the empty list for an unknown title and for a matrix with no row at the resolved index |
| `Recommender.CollectRecommendations` | app.py:51-56 | the loop yields one entry per pick, in pick order, with that catalog row's title and movie id; None (the caught IndexError of `iloc`) exactly when some pick lies beyond the catalog |
| `Recommender.Recommend` | app.py:45-62 | the call returns the specified list; an unknown title gives the empty list |
| `Recommender.KnownTitleRecommendations` | app.py:47-56 | with a square matrix and a known title: min(5, N - 1) entries, the k-th naming the catalog row of the k-th pick of the first matching row |
| `Recommender.QueryRowRecommendedIff` | app.py:47-49 | the query's own row is picked exactly when it is not its row's first maximum and ranks at most 5, and where it is picked the returned list names the query movie at that position |
| `Recommender.QueryMovieCanBeRecommended` | app.py:49 | two movies with equal scores: asking for the second recommends the second itself |
| `Recommender.FourMovieExample` | app.py:45-58 | scores 10, 9, 9, 1 for the first of four movies give the other three, the tie in column order |

## Left out

- Loading the movie table and the similarity matrix (`load_data`, joblib files, the Streamlit resource cache and `st.stop()`): the two are inputs of the model.
- `fetch_poster` (the TMDb HTTP request, its timeout and its error handling): each entry carries the movie id in place of the poster URL. Exceptions it would let through are not modelled.
- The `st.error` message shown when no title matches, and the rest of the Streamlit page (selectbox, button, columns, images).
- Floating-point similarity scores (NaN ordering, the cosine computation): scores are integers, since only their order within one row matters.
- pandas and numpy behaviour beyond "first matching position" and "row as a sequence"; an index other than the default RangeIndex.
- Python's sort algorithm itself (TimSort): `SortDesc` is an insertion sort, and `RankedUnique` shows every stable descending sort gives the same list.
