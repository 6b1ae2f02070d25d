/** The rows of an index, in index order, and the exact counts that a scan of
    the whole index would give for a prefix of columns.

    A column value is an `int`: only equality and order of values matter to the
    statistics, and every collating sequence gives a total order. */
module IndexRows {

  type Row = seq<int>

  /** `x` and `y` agree in their first `k` columns. */
  ghost predicate Same(x: Row, y: Row, k: nat) {
    k <= |x| && k <= |y| && forall i | 0 <= i < k :: x[i] == y[i]
  }

  /** Column `c` is the leftmost column in which `x` and `y` differ, and `x` sorts first. */
  ghost predicate LessAt(x: Row, y: Row, c: nat) {
    |x| == |y| && c < |x| && Same(x, y, c) && x[c] < y[c]
  }

  /** The first `k` columns of `x` sort before the first `k` columns of `y`. */
  ghost predicate Before(x: Row, y: Row, k: nat) {
    exists c: nat :: c < k && LessAt(x, y, c)
  }

  /** An index: every row has `nCol` columns, and the rows strictly increase. */
  ghost predicate Sorted(rows: seq<Row>, nCol: nat) {
    (forall j | 0 <= j < |rows| :: |rows[j]| == nCol) &&
    (forall j, k | 0 <= j < k < |rows| :: Before(rows[j], rows[k], nCol))
  }

  /** The number of rows that share the first `k` columns of `x`. */
  ghost function CountEq(rows: seq<Row>, x: Row, k: nat): nat {
    if rows == [] then 0
    else
      var n := |rows| - 1;
      CountEq(rows[..n], x, k) + if Same(rows[n], x, k) then 1 else 0
  }

  /** The number of rows whose first `k` columns sort before those of `x`. */
  ghost function CountLess(rows: seq<Row>, x: Row, k: nat): nat {
    if rows == [] then 0
    else
      var n := |rows| - 1;
      CountLess(rows[..n], x, k) + if Before(rows[n], x, k) then 1 else 0
  }

  /** The different values of the first `k` columns that sort before those of `x`. */
  ghost function LesserPrefixes(rows: seq<Row>, x: Row, k: nat): set<Row> {
    set j | 0 <= j < |rows| && k <= |rows[j]| && Before(rows[j], x, k) :: rows[j][..k]
  }

  lemma SameSlice(x: Row, y: Row, k: nat)
    requires k <= |x| && k <= |y|
    ensures Same(x, y, k) <==> x[..k] == y[..k]
  {
    if x[..k] == y[..k] {
      forall i | 0 <= i < k ensures x[i] == y[i] {
        assert x[..k][i] == y[..k][i];
      }
    }
  }

  lemma LessTrans(x: Row, y: Row, z: Row, c: nat, d: nat)
    requires LessAt(x, y, c) && LessAt(y, z, d)
    ensures LessAt(x, z, if c < d then c else d)
  {
  }

  lemma BeforeAsym(x: Row, y: Row, k: nat)
    requires Before(x, y, k)
    ensures !Before(y, x, k) && !Same(x, y, k)
  {
  }

  /** When `x` follows the last row, it follows every row, and differs from
      every row no later than in column `c`. */
  lemma SortedPush(rows: seq<Row>, nCol: nat, x: Row, c: nat)
    requires Sorted(rows, nCol) && rows != [] && LessAt(rows[|rows| - 1], x, c)
    ensures Sorted(rows + [x], nCol)
    ensures forall j | 0 <= j < |rows| :: Before(rows[j], x, c + 1)
  {
    var n := |rows| - 1;
    forall j | 0 <= j < |rows| ensures Before(rows[j], x, c + 1) && Before(rows[j], x, nCol) {
      if j < n {
        var d: nat :| d < nCol && LessAt(rows[j], rows[n], d);
        LessTrans(rows[j], rows[n], x, d, c);
      }
    }
  }

  lemma SortedTake(rows: seq<Row>, nCol: nat, n: nat)
    requires Sorted(rows, nCol) && n <= |rows|
    ensures Sorted(rows[..n], nCol)
  {
  }

  /** Rows that share leading columns are contiguous. */
  lemma Contiguous(rows: seq<Row>, nCol: nat, i: nat, j: nat, k: nat, len: nat)
    requires Sorted(rows, nCol) && i < |rows| && j < |rows| && k < |rows| && len <= nCol
    ensures i <= j <= k && Same(rows[i], rows[k], len) ==> Same(rows[j], rows[k], len)
  {
    if i < j < k && Same(rows[i], rows[k], len) {
      var c: nat :| c < nCol && LessAt(rows[i], rows[j], c);
      var d: nat :| d < nCol && LessAt(rows[j], rows[k], d);
      LessTrans(rows[i], rows[j], rows[k], c, d);
    }
  }

  // -------------------- how the exact counts change when a row arrives --------------------

  lemma CountPush(rows: seq<Row>, y: Row, x: Row, k: nat)
    ensures CountEq(rows + [y], x, k) == CountEq(rows, x, k) + if Same(y, x, k) then 1 else 0
    ensures CountLess(rows + [y], x, k) == CountLess(rows, x, k) + if Before(y, x, k) then 1 else 0
  {
    assert (rows + [y])[..|rows|] == rows;
  }

  lemma {:induction false} CountSame(rows: seq<Row>, x: Row, y: Row, k: nat)
    requires |x| == |y| && Same(x, y, k)
    ensures CountEq(rows, x, k) == CountEq(rows, y, k)
    ensures CountLess(rows, x, k) == CountLess(rows, y, k)
    ensures LesserPrefixes(rows, x, k) == LesserPrefixes(rows, y, k)
  {
    forall z ensures Before(z, x, k) == Before(z, y, k) && Same(z, x, k) == Same(z, y, k) {
      if Before(z, x, k) { var c: nat :| c < k && LessAt(z, x, c); assert LessAt(z, y, c); }
      if Before(z, y, k) { var c: nat :| c < k && LessAt(z, y, c); assert LessAt(z, x, c); }
    }
    if rows != [] {
      CountSame(rows[..|rows| - 1], x, y, k);
    }
  }

  lemma {:induction false} CountAllBefore(rows: seq<Row>, x: Row, k: nat)
    requires forall j | 0 <= j < |rows| :: Before(rows[j], x, k)
    ensures CountEq(rows, x, k) == 0
    ensures CountLess(rows, x, k) == |rows|
  {
    if rows != [] {
      BeforeAsym(rows[|rows| - 1], x, k);
      CountAllBefore(rows[..|rows| - 1], x, k);
    }
  }

  /** A later row leaves an earlier row's counts alone, except that it adds one
      to the equal-count while the prefix lasts. */
  lemma CountsKeep(rows: seq<Row>, nCol: nat, y: Row, r: nat, k: nat)
    requires Sorted(rows + [y], nCol) && r < |rows| && k <= nCol
    ensures CountLess(rows + [y], rows[r], k) == CountLess(rows, rows[r], k)
    ensures LesserPrefixes(rows + [y], rows[r], k) == LesserPrefixes(rows, rows[r], k)
    ensures CountEq(rows + [y], rows[r], k) ==
            CountEq(rows, rows[r], k) + if Same(rows[r], y, k) then 1 else 0
  {
    var all := rows + [y];
    var x := rows[r];
    assert all[r] == x && all[|rows|] == y && Before(all[r], all[|rows|], nCol);
    BeforeAsym(x, y, nCol);
    CountPush(rows, y, x, k);
    assert !Before(y, x, k);
    assert forall j | 0 <= j < |rows| :: all[j] == rows[j];
  }

  /** A row that differs from the last one first in column `c` starts a new prefix of
      every length above `c`: all earlier rows sort before it. */
  lemma CountsNew(rows: seq<Row>, nCol: nat, y: Row, c: nat, k: nat)
    requires Sorted(rows, nCol) && rows != [] && LessAt(rows[|rows| - 1], y, c)
    requires c < k <= nCol
    ensures CountEq(rows + [y], y, k) == 1
    ensures CountLess(rows + [y], y, k) == |rows|
    ensures forall j | 0 <= j < |rows| :: !Same(rows[j], y, k)
  {
    SortedPush(rows, nCol, y, c);
    forall j | 0 <= j < |rows| ensures Before(rows[j], y, k) && !Same(rows[j], y, k) {
      var d: nat :| d < c + 1 && LessAt(rows[j], y, d);
    }
    CountAllBefore(rows, y, k);
    CountPush(rows, y, y, k);
  }

  lemma LastPrefixIsNew(rows: seq<Row>, x: Row, k: nat)
    requires k <= |x|
    ensures x[..k] !in LesserPrefixes(rows, x, k)
  {
    forall j | 0 <= j < |rows| && k <= |rows[j]| && Before(rows[j], x, k)
      ensures rows[j][..k] != x[..k]
    {
      BeforeAsym(rows[j], x, k);
      SameSlice(rows[j], x, k);
    }
  }

  lemma PrefixesWithin(rows: seq<Row>, nCol: nat, k: nat, j: nat)
    requires Sorted(rows, nCol) && k <= nCol && j < |rows|
    ensures var x := rows[|rows| - 1];
            Before(rows[j], x, k) || rows[j][..k] == x[..k]
  {
    var x := rows[|rows| - 1];
    if j < |rows| - 1 {
      var d: nat :| d < nCol && LessAt(rows[j], x, d);
      if k <= d {
        SameSlice(rows[j], x, k);
      }
    }
  }

  /** The new prefix has one more distinct predecessor than the previous one had. */
  lemma PrefixesNew(rows: seq<Row>, nCol: nat, y: Row, c: nat, k: nat)
    requires Sorted(rows, nCol) && rows != [] && LessAt(rows[|rows| - 1], y, c)
    requires c < k <= nCol
    ensures |LesserPrefixes(rows + [y], y, k)| == |LesserPrefixes(rows, rows[|rows| - 1], k)| + 1
  {
    var x := rows[|rows| - 1];
    var all := rows + [y];
    var before, after := LesserPrefixes(rows, x, k), LesserPrefixes(all, y, k);
    SortedPush(rows, nCol, y, c);
    LastPrefixIsNew(rows, x, k);
    forall u | u in after ensures u in before + {x[..k]} {
      LesserOrLast(rows, nCol, y, k, u);
    }
    forall u | u in before + {x[..k]} ensures u in after {
      var j := RowWithPrefix(rows, k, u);
      PushedBefore(rows, y, c, k, j);
    }
    hide LesserPrefixes;
    assert after == before + {x[..k]};
  }

  lemma LesserOrLast(rows: seq<Row>, nCol: nat, y: Row, k: nat, u: Row)
    requires Sorted(rows, nCol) && rows != [] && |y| == nCol && k <= nCol && u in LesserPrefixes(rows + [y], y, k)
    ensures u in LesserPrefixes(rows, rows[|rows| - 1], k) || u == rows[|rows| - 1][..k]
  {
    var all := rows + [y];
    var j :| 0 <= j < |all| && k <= |all[j]| && Before(all[j], y, k) && u == all[j][..k];
    assert j < |rows| && all[j] == rows[j];
    PrefixesWithin(rows, nCol, k, j);
  }

  lemma RowWithPrefix(rows: seq<Row>, k: nat, u: Row) returns (j: nat)
    requires rows != [] && k <= |rows[|rows| - 1]|
    requires u in LesserPrefixes(rows, rows[|rows| - 1], k) + {rows[|rows| - 1][..k]}
    ensures j < |rows| && k <= |rows[j]| && u == rows[j][..k]
  {
    j :| j < |rows| && k <= |rows[j]| && u == rows[j][..k];
  }

  lemma PushedBefore(rows: seq<Row>, y: Row, c: nat, k: nat, j: nat)
    requires j < |rows| && c < k <= |rows[j]| && Before(rows[j], y, c + 1)
    ensures rows[j][..k] in LesserPrefixes(rows + [y], y, k)
  {
    var d: nat :| d < c + 1 && LessAt(rows[j], y, d);
    assert (rows + [y])[j] == rows[j] && Before(rows[j], y, k);
  }

  /** The counts of a prefix that goes on. */
  lemma PrefixGoesOn(rows: seq<Row>, nCol: nat, y: Row, c: nat, i: nat)
    requires Sorted(rows, nCol) && rows != [] && LessAt(rows[|rows| - 1], y, c) && i < c && i < nCol
    ensures var all, last := rows + [y], rows[|rows| - 1];
            CountEq(all, y, i + 1) == CountEq(rows, last, i + 1) + 1 &&
            CountLess(all, y, i + 1) == CountLess(rows, last, i + 1) &&
            LesserPrefixes(all, y, i + 1) == LesserPrefixes(rows, last, i + 1)
  {
    SortedPush(rows, nCol, y, c);
    CountsKeep(rows, nCol, y, |rows| - 1, i + 1);
    CountSame(rows + [y], rows[|rows| - 1], y, i + 1);
  }

  /** The counts of a prefix that starts anew. */
  lemma PrefixStarts(rows: seq<Row>, nCol: nat, y: Row, c: nat, i: nat)
    requires Sorted(rows, nCol) && rows != [] && LessAt(rows[|rows| - 1], y, c) && c <= i < nCol
    ensures var all, last := rows + [y], rows[|rows| - 1];
            CountEq(all, y, i + 1) == 1 && CountLess(all, y, i + 1) == |rows| &&
            |LesserPrefixes(all, y, i + 1)| == |LesserPrefixes(rows, last, i + 1)| + 1
  {
    hide *;
    CountsNew(rows, nCol, y, c, i + 1);
    PrefixesNew(rows, nCol, y, c, i + 1);
  }

  // -------------------- the number of distinct values --------------------

  /** The different values of the first `k` columns. */
  ghost function Prefixes(rows: seq<Row>, k: nat): set<Row> {
    set j | 0 <= j < |rows| && k <= |rows[j]| :: rows[j][..k]
  }

  lemma PrefixesOfLast(rows: seq<Row>, nCol: nat, k: nat)
    requires Sorted(rows, nCol) && rows != [] && k <= nCol
    ensures |Prefixes(rows, k)| == |LesserPrefixes(rows, rows[|rows| - 1], k)| + 1
  {
    var x := rows[|rows| - 1];
    LastPrefixIsNew(rows, x, k);
    forall u | u in Prefixes(rows, k) ensures u in LesserPrefixes(rows, x, k) + {x[..k]} {
      var j :| 0 <= j < |rows| && k <= |rows[j]| && rows[j][..k] == u;
      PrefixesWithin(rows, nCol, k, j);
    }
    assert Prefixes(rows, k) == LesserPrefixes(rows, x, k) + {x[..k]};
  }

  ghost function Shorten(s: set<Row>, k: nat): set<Row>
    requires forall u | u in s :: k <= |u|
  {
    set u | u in s :: u[..k]
  }

  lemma {:induction false} ShortenShrinks(s: set<Row>, k: nat)
    requires forall u | u in s :: k <= |u|
    ensures |Shorten(s, k)| <= |s|
  {
    if s != {} {
      var u :| u in s;
      ShortenShrinks(s - {u}, k);
      assert Shorten(s, k) == Shorten(s - {u}, k) + {u[..k]};
    } else {
      assert Shorten(s, k) == {};
    }
  }

  /** More columns tell more values apart, and no more values than there are rows. */
  lemma PrefixesGrow(rows: seq<Row>, nCol: nat, j: nat, k: nat)
    requires (forall r | 0 <= r < |rows| :: |rows[r]| == nCol) && j <= k <= nCol
    ensures |Prefixes(rows, j)| <= |Prefixes(rows, k)| <= |rows|
  {
    assert forall r | 0 <= r < |rows| :: rows[r][..j] == rows[r][..k][..j];
    forall u | u in Prefixes(rows, j) ensures u in Shorten(Prefixes(rows, k), j) {
      var r :| 0 <= r < |rows| && rows[r][..j] == u;
      assert rows[r][..k] in Prefixes(rows, k);
    }
    assert Prefixes(rows, j) == Shorten(Prefixes(rows, k), j);
    ShortenShrinks(Prefixes(rows, k), j);
    PrefixesBounded(rows, k);
  }

  lemma {:induction false} PrefixesBounded(rows: seq<Row>, k: nat)
    ensures |Prefixes(rows, k)| <= |rows|
  {
    if rows != [] {
      var n := |rows| - 1;
      PrefixesBounded(rows[..n], k);
      assert Prefixes(rows, k) <= Prefixes(rows[..n], k) + if k <= |rows[n]| then {rows[n][..k]} else {} by {
        forall u | u in Prefixes(rows, k) && !(k <= |rows[n]| && u == rows[n][..k])
          ensures u in Prefixes(rows[..n], k)
        {
          var j :| 0 <= j < |rows| && k <= |rows[j]| && rows[j][..k] == u;
          assert rows[..n][j] == rows[j];
        }
      }
      SubsetSize(Prefixes(rows, k), Prefixes(rows[..n], k) + if k <= |rows[n]| then {rows[n][..k]} else {});
    } else {
      assert Prefixes(rows, k) == {};
    }
  }

  lemma {:induction false} SubsetSize(s: set<Row>, t: set<Row>)
    requires s <= t
    ensures |s| <= |t|
  {
    if s != {} {
      var u :| u in s;
      SubsetSize(s - {u}, t - {u});
    }
  }
}
