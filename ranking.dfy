/** `sort_values(by = "score_all", ascending = False)`: the scored rows, highest
    `score_all` first, with NaN placed last. */
module Ranking {
  import opened Scores

  /** The order of the non-NaN values of `score_all`: -inf, the reals, +inf. */
  predicate NotAbove(a: Extended, b: Extended)
    requires !a.NaN? && !b.NaN?
  {
    match (a, b)
    case (NegInf, _) => true
    case (_, PosInf) => true
    case (Finite(x), Finite(y)) => x <= y
    case _ => false
  }

  /** `a` may precede `b` in the descending order: NaN goes after everything. */
  predicate Precedes(a: Extended, b: Extended) {
    b.NaN? || (!a.NaN? && NotAbove(b, a))
  }

  lemma PrecedesTotal(a: Extended, b: Extended)
    ensures Precedes(a, b) || Precedes(b, a)
  {
  }

  lemma PrecedesTransitive(a: Extended, b: Extended, c: Extended)
    requires Precedes(a, b) && Precedes(b, c)
    ensures Precedes(a, c)
  {
  }

  predicate Descending(rows: seq<ScoredRow>) {
    forall i, j :: 0 <= i < j < |rows| ==> Precedes(rows[i].all, rows[j].all)
  }

  /** The rows whose `score_all` is `v`, in their order. NaN is one such value,
      so `WithScore(rows, NaN)` lists the NaN rows. */
  function WithScore(rows: seq<ScoredRow>, v: Extended): seq<ScoredRow> {
    if rows == [] then []
    else (if rows[0].all == v then [rows[0]] else []) + WithScore(rows[1..], v)
  }

  lemma {:induction false} WithScoreAppend(a: seq<ScoredRow>, b: seq<ScoredRow>, v: Extended)
    ensures WithScore(a + b, v) == WithScore(a, v) + WithScore(b, v)
  {
    if a != [] {
      assert (a + b)[1..] == a[1..] + b;
      WithScoreAppend(a[1..], b, v);
    } else {
      assert a + b == b;
    }
  }

  lemma WithScoreLast(rows: seq<ScoredRow>)
    requires rows != []
    ensures var n := |rows| - 1;
      forall v :: WithScore(rows, v) == WithScore(rows[..n], v) + (if rows[n].all == v then [rows[n]] else [])
  {
    var n := |rows| - 1;
    assert rows == rows[..n] + [rows[n]];
    forall v ensures WithScore(rows, v) == WithScore(rows[..n], v) + (if rows[n].all == v then [rows[n]] else []) {
      WithScoreAppend(rows[..n], [rows[n]], v);
      assert [rows[n]][1..] == [];
    }
  }

  lemma WithScoreCons(x: ScoredRow, rows: seq<ScoredRow>, v: Extended)
    ensures WithScore([x] + rows, v) == (if x.all == v then [x] else []) + WithScore(rows, v)
  {
    assert ([x] + rows)[1..] == rows;
  }

  /** A row that strictly outranks the first row of a descending sequence has a
      `score_all` no row of it shares, so it goes last among its equals. */
  lemma FrontInsertKeepsTies(row: ScoredRow, rows: seq<ScoredRow>)
    requires Descending(rows) && rows != [] && !Precedes(rows[0].all, row.all)
    ensures forall v :: WithScore([row] + rows, v) == WithScore(rows, v) + (if row.all == v then [row] else [])
  {
    forall v ensures WithScore([row] + rows, v) == WithScore(rows, v) + (if row.all == v then [row] else []) {
      WithScoreCons(row, rows, v);
      if row.all == v {
        forall x | x in rows ensures x.all != v {
          var j :| 0 <= j < |rows| && rows[j] == x;
          PrecedesTotal(x.all, x.all);
          assert Precedes(rows[0].all, x.all);
        }
        NoneWithScore(rows, v);
      }
    }
  }

  lemma {:induction false} NoneWithScore(rows: seq<ScoredRow>, v: Extended)
    requires forall x :: x in rows ==> x.all != v
    ensures WithScore(rows, v) == []
  {
    if rows != [] {
      NoneWithScore(rows[1..], v);
    }
  }

  /** Keeping the head in front of a tail that has gained `row` at its place. */
  lemma ConsKeepsTies(head: ScoredRow, rows: seq<ScoredRow>, tail: seq<ScoredRow>, row: ScoredRow)
    requires forall v :: WithScore(tail, v) == WithScore(rows, v) + (if row.all == v then [row] else [])
    ensures forall v :: WithScore([head] + tail, v) == WithScore([head] + rows, v) + (if row.all == v then [row] else [])
  {
    forall v ensures WithScore([head] + tail, v) == WithScore([head] + rows, v) + (if row.all == v then [row] else []) {
      WithScoreCons(head, tail, v);
      WithScoreCons(head, rows, v);
    }
  }

  /** The head of a descending sequence precedes every row of its tail with
      `row` inserted, when it also precedes `row`. */
  lemma HeadPrecedesTail(row: ScoredRow, rows: seq<ScoredRow>, tail: seq<ScoredRow>)
    requires Descending(rows) && rows != [] && Precedes(rows[0].all, row.all)
    requires multiset(tail) == multiset(rows[1..]) + multiset{row}
    ensures forall j :: 0 <= j < |tail| ==> Precedes(rows[0].all, tail[j].all)
  {
    forall j | 0 <= j < |tail| ensures Precedes(rows[0].all, tail[j].all) {
      assert tail[j] in multiset(rows[1..]) + multiset{row};
      if tail[j] != row {
        var k :| 0 <= k < |rows[1..]| && rows[1..][k] == tail[j];
        assert rows[k + 1] == tail[j];
      }
    }
  }

  /** Places `row` into an already descending sequence, after every row that it
      does not strictly outrank, so rows of equal `score_all` keep their order. */
  function Insert(row: ScoredRow, rows: seq<ScoredRow>): (r: seq<ScoredRow>)
    requires Descending(rows)
    ensures Descending(r)
    ensures multiset(r) == multiset(rows) + multiset{row}
    ensures forall v :: WithScore(r, v) == WithScore(rows, v) + (if row.all == v then [row] else [])
  {
    if rows == [] then [row]
    else if !Precedes(rows[0].all, row.all) then
      PrecedesTotal(row.all, rows[0].all);
      forall j | 0 < j < |rows| ensures Precedes(row.all, rows[j].all) {
        PrecedesTransitive(row.all, rows[0].all, rows[j].all);
      }
      FrontInsertKeepsTies(row, rows);
      [row] + rows
    else
      var tail := Insert(row, rows[1..]);
      assert rows == [rows[0]] + rows[1..];
      HeadPrecedesTail(row, rows, tail);
      ConsKeepsTies(rows[0], rows[1..], tail, row);
      [rows[0]] + tail
  }

  /** The result of the sort: the same rows, highest `score_all` first, and the
      rows of each `score_all` value (NaN included) in their input order. */
  function SortByScoreAll(rows: seq<ScoredRow>): (r: seq<ScoredRow>)
    ensures Descending(r)
    ensures multiset(r) == multiset(rows)
    ensures |r| == |rows|
    ensures forall v :: WithScore(r, v) == WithScore(rows, v)
  {
    if rows == [] then []
    else
      var n := |rows| - 1;
      var sorted := SortByScoreAll(rows[..n]);
      assert rows == rows[..n] + [rows[n]];
      WithScoreLast(rows);
      var r := Insert(rows[n], sorted);
      assert |r| == |multiset(r)|;
      r
  }

  /** Two NaN rows come out in their input order, as pandas appends the NaN
      positions in index order. */
  lemma NaNRowsKeepOrder(a: ScoredRow, b: ScoredRow)
    requires a.all.NaN? && b.all.NaN?
    ensures SortByScoreAll([a, b]) == [a, b]
  {
    var rows := [a, b];
    assert rows[..1] == [a] && rows[..1][..0] == [];
    assert SortByScoreAll([a]) == [a];
  }

  /** How many rows have a `score_all` that is not NaN. */
  function ValuedCount(rows: seq<ScoredRow>): (n: nat)
    ensures n <= |rows|
  {
    if rows == [] then 0
    else ValuedCount(rows[..|rows| - 1]) + (if rows[|rows| - 1].all.NaN? then 0 else 1)
  }

  /** In a descending sequence the rows whose `score_all` is NaN form a suffix:
      the rows with a value come first, all of them, then the NaN rows. */
  lemma {:induction false} NaNRowsLast(rows: seq<ScoredRow>)
    requires Descending(rows)
    ensures forall i :: 0 <= i < ValuedCount(rows) ==> !rows[i].all.NaN?
    ensures forall i :: ValuedCount(rows) <= i < |rows| ==> rows[i].all.NaN?
  {
    if rows != [] {
      var last := |rows| - 1;
      NaNRowsLast(rows[..last]);
      if !rows[last].all.NaN? {
        forall i | 0 <= i < last ensures !rows[i].all.NaN? {
          assert Precedes(rows[i].all, rows[last].all);
        }
      }
    }
  }

  /** The first row of the ranking has the highest `score_all` of all the rows. */
  lemma FirstIsHighest(rows: seq<ScoredRow>, row: ScoredRow)
    requires row in rows
    ensures Precedes(SortByScoreAll(rows)[0].all, row.all)
  {
    var r := SortByScoreAll(rows);
    assert row in multiset(rows);
    assert row in r;
    var j :| 0 <= j < |r| && r[j] == row;
    if j == 0 {
      PrecedesTotal(row.all, row.all);
    }
  }
}
