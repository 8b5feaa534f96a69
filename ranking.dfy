/**
 * The ranking step of `recommend`:
 *   sorted(list(enumerate(row)), key=lambda x: x[1], reverse=True)[1:6]
 * Scores are integers standing for the similarity values; only their order
 * within one row matters.
 */
module Ranking {

  type Score = int

  /** A pair produced by `enumerate`: (column index, similarity score). */
  type Scored = (nat, Score)

  /** The number of entries `[1:6]` keeps. */
  const TopCount: nat := 5

  /** `list(enumerate(row))`: every column paired with its score, in column order. */
  function Enumerate(row: seq<Score>): (ps: seq<Scored>)
    ensures |ps| == |row|
    ensures forall i :: 0 <= i < |row| ==> ps[i] == (i, row[i])
  {
    seq(|row|, i requires 0 <= i < |row| => (i, row[i]))
  }

  /** The column indices of `ps` strictly increase, as they do for `Enumerate`. */
  predicate IndexIncreasing(ps: seq<Scored>) {
    forall i, j :: 0 <= i < j < |ps| ==> ps[i].0 < ps[j].0
  }

  /** Scores never increase along `s`. */
  predicate Descending(s: seq<Scored>) {
    forall i, j :: 0 <= i < j < |s| ==> s[i].1 >= s[j].1
  }

  /**
   * The order a stable descending sort leaves enumerated pairs in:
   * a higher score first, and among equal scores the lower column first.
   */
  predicate Before(a: Scored, b: Scored) {
    a.1 > b.1 || (a.1 == b.1 && a.0 < b.0)
  }

  /** Every earlier element of `s` comes strictly Before every later one. */
  predicate Ranked(s: seq<Scored>) {
    forall i, j :: 0 <= i < j < |s| ==> Before(s[i], s[j])
  }

  /**
   * Places `x` ahead of the first element whose score is not higher than its
   * own: `x` stands for an element that came earlier in the input than all
   * of `s`, so among equal scores it stays first.
   */
  function Insert(x: Scored, s: seq<Scored>): (r: seq<Scored>)
    ensures multiset(r) == multiset(s) + multiset{x}
  {
    if s == [] || x.1 >= s[0].1 then [x] + s
    else
      assert s == [s[0]] + s[1..];
      [s[0]] + Insert(x, s[1..])
  }

  /**
   * `sorted(ps, key=score, reverse=True)`: Python's sort is stable, also
   * with `reverse=True`, so equal scores keep their input order.
   */
  function SortDesc(ps: seq<Scored>): (r: seq<Scored>)
    ensures multiset(r) == multiset(ps)
  {
    if ps == [] then []
    else
      assert ps == [ps[0]] + ps[1..];
      Insert(ps[0], SortDesc(ps[1..]))
  }

  lemma {:induction false} InsertDescending(x: Scored, s: seq<Scored>)
    requires Descending(s)
    ensures Descending(Insert(x, s))
  {
    if s != [] && x.1 < s[0].1 {
      var t := Insert(x, s[1..]);
      InsertDescending(x, s[1..]);
      forall j | 0 <= j < |t| ensures s[0].1 >= t[j].1 {
        assert t[j] in multiset(t);
        if t[j] != x {
          assert t[j] in multiset(s[1..]);
          var k :| 0 <= k < |s[1..]| && s[1..][k] == t[j];
          assert s[k + 1] == t[j];
        }
      }
    }
  }

  /** The sorted list is in non-increasing score order, for any input. */
  lemma {:induction false} SortDescDescending(ps: seq<Scored>)
    ensures Descending(SortDesc(ps))
  {
    if ps != [] {
      SortDescDescending(ps[1..]);
      InsertDescending(ps[0], SortDesc(ps[1..]));
    }
  }

  lemma {:induction false} InsertRanked(x: Scored, s: seq<Scored>)
    requires Ranked(s)
    requires forall e :: e in s ==> x.0 < e.0
    ensures Ranked(Insert(x, s))
  {
    if s == [] || x.1 >= s[0].1 {
      forall j | 0 <= j < |s| ensures Before(x, s[j]) {
        assert j == 0 || Before(s[0], s[j]);
      }
    } else {
      var t := Insert(x, s[1..]);
      InsertRanked(x, s[1..]);
      forall j | 0 <= j < |t| ensures Before(s[0], t[j]) {
        assert t[j] in multiset(t);
        if t[j] != x {
          assert t[j] in multiset(s[1..]);
          var k :| 0 <= k < |s[1..]| && s[1..][k] == t[j];
          assert Before(s[0], s[k + 1]);
        }
      }
    }
  }

  /**
   * Stability: sorting pairs whose column indices increase (the output of
   * `Enumerate`) puts equal scores in ascending column order.
   */
  lemma {:induction false} SortDescRanked(ps: seq<Scored>)
    requires IndexIncreasing(ps)
    ensures Ranked(SortDesc(ps))
  {
    if ps != [] {
      var s := SortDesc(ps[1..]);
      SortDescRanked(ps[1..]);
      forall e | e in s ensures ps[0].0 < e.0 {
        assert e in multiset(ps[1..]);
        var k :| 0 <= k < |ps[1..]| && ps[1..][k] == e;
        assert ps[k + 1] == e;
      }
      InsertRanked(ps[0], s);
    }
  }

  lemma HeadIsLeast(s: seq<Scored>)
    requires Ranked(s) && s != []
    ensures forall e :: e in s && e != s[0] ==> Before(s[0], e)
  {
  }

  /**
   * A ranked arrangement of a given multiset of pairs is unique: any stable
   * descending sort of the same pairs yields exactly the same list.
   */
  lemma {:induction false} RankedUnique(a: seq<Scored>, b: seq<Scored>)
    requires Ranked(a) && Ranked(b)
    requires multiset(a) == multiset(b)
    ensures a == b
  {
    if a == [] {
      assert |multiset(b)| == 0;
    } else {
      assert b != [] by { assert a[0] in multiset(b); }
      HeadIsLeast(a);
      HeadIsLeast(b);
      assert a[0] in multiset(b) && b[0] in multiset(a);
      assert a[0] == b[0];
      assert a == [a[0]] + a[1..] && b == [b[0]] + b[1..];
      assert multiset(a[1..]) == multiset(a) - multiset{a[0]};
      assert multiset(b[1..]) == multiset(b) - multiset{b[0]};
      RankedUnique(a[1..], b[1..]);
    }
  }

  /**
   * Any ranked listing of a row's enumerated pairs is the ranked row: the
   * result does not depend on how the stable sort is carried out.
   */
  lemma RankedRowUnique(row: seq<Score>, s: seq<Scored>)
    requires Ranked(s)
    requires multiset(s) == multiset(Enumerate(row))
    ensures RankedRow(row) == s
  {
    RankedUnique(RankedRow(row), s);
  }

  /** `s[1:6]`: drops the first element and keeps at most the next five. */
  function DropFirstKeepFive<T>(s: seq<T>): (r: seq<T>)
    ensures |r| == if |s| <= 1 then 0 else if |s| - 1 < TopCount then |s| - 1 else TopCount
    ensures forall k :: 0 <= k < |r| ==> r[k] == s[k + 1]
  {
    var lo := if |s| < 1 then |s| else 1;
    var hi := if |s| < TopCount + 1 then |s| else TopCount + 1;
    s[lo..hi]
  }

  /** The stably sorted row, before the slice. */
  function RankedRow(row: seq<Score>): (r: seq<Scored>)
    ensures multiset(r) == multiset(Enumerate(row))
    ensures |r| == |row|
    ensures Ranked(r)
    ensures forall k :: 0 <= k < |r| ==> r[k].0 < |row| && r[k].1 == row[r[k].0]
    ensures forall c :: 0 <= c < |row| ==> (c, row[c]) in r
  {
    var ps := Enumerate(row);
    var r := SortDesc(ps);
    SortDescRanked(ps);
    assert |r| == |multiset(r)| == |multiset(ps)| == |ps|;
    assert forall k :: 0 <= k < |r| ==> r[k] in multiset(ps);
    assert forall c :: 0 <= c < |row| ==> ps[c] in multiset(r);
    r
  }

  /** The pairs `recommend` keeps: positions 1 to 5 of the ranked row. */
  function TopPicks(row: seq<Score>): (picks: seq<Scored>)
    ensures |picks| == if |row| <= 1 then 0 else if |row| - 1 < TopCount then |row| - 1 else TopCount
    ensures Ranked(picks)
    ensures forall k :: 0 <= k < |picks| ==> picks[k].0 < |row| && picks[k].1 == row[picks[k].0]
  {
    DropFirstKeepFive(RankedRow(row))
  }

  /** Column `q` holds the row's highest score, and no lower column ties it. */
  predicate IsFirstMaximum(row: seq<Score>, q: nat) {
    && q < |row|
    && (forall c :: 0 <= c < |row| ==> row[c] <= row[q])
    && (forall c :: 0 <= c < q ==> row[c] < row[q])
  }

  /**
   * The element `[1:6]` drops is the first of the sorted order: the column
   * with the highest score, the lowest such column on a tie.
   */
  lemma DroppedIsFirstMaximum(row: seq<Score>, q: nat)
    requires q < |row|
    ensures RankedRow(row)[0].0 == q <==> IsFirstMaximum(row, q)
  {
  }

  /** Each column of the row sits at exactly one position of the ranked row. */
  ghost function RankOf(row: seq<Score>, q: nat): (p: nat)
    requires q < |row|
    ensures p < |row| && RankedRow(row)[p] == (q, row[q])
    ensures forall p' :: 0 <= p' < |row| && RankedRow(row)[p'].0 == q ==> p' == p
  {
    var r := RankedRow(row);
    var p :| 0 <= p < |r| && r[p] == (q, row[q]);
    assert forall p' :: 0 <= p' < |row| && r[p'].0 == q ==> r[p'] == r[p];
    p
  }

  /**
   * Column `q` is among the picks exactly when its rank is 1 to 5: it is left
   * out when it sorts first (it is the row's first maximum) or below position 5.
   */
  lemma PickedIffRanked(row: seq<Score>, q: nat)
    requires q < |row|
    ensures (exists k :: 0 <= k < |TopPicks(row)| && TopPicks(row)[k].0 == q)
        <==> 1 <= RankOf(row, q) <= TopCount
    ensures RankOf(row, q) == 0 <==> IsFirstMaximum(row, q)
  {
    var r, picks, p := RankedRow(row), TopPicks(row), RankOf(row, q);
    if 1 <= p <= TopCount {
      assert picks[p - 1].0 == q;
    }
    DroppedIsFirstMaximum(row, q);
  }

  /**
   * Top-K: every column of the row that is neither dropped nor picked ranks
   * after every pick, and the picks are distinct columns.
   */
  lemma TopPicksBeatTheRest(row: seq<Score>, c: nat)
    requires 0 < |row| && c < |row|
    requires c != RankedRow(row)[0].0
    requires forall k :: 0 <= k < |TopPicks(row)| ==> TopPicks(row)[k].0 != c
    ensures forall k :: 0 <= k < |TopPicks(row)| ==> Before(TopPicks(row)[k], (c, row[c]))
  {
  }

  /** The picks name distinct columns. */
  lemma TopPicksDistinct(row: seq<Score>)
    ensures forall k, l :: 0 <= k < l < |TopPicks(row)| ==> TopPicks(row)[k].0 != TopPicks(row)[l].0
  {
  }
}
