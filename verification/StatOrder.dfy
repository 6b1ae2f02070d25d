/** The preference between candidate samples is a strict weak order, so "least preferred"
    and "best" mean something, and both scans find what they look for. */
module StatOrder {
  import opened StatSpec

  lemma {:induction false} BetterFromOrder(nCol: nat, x: Sample, y: Sample, z: Sample, i: nat)
    requires |x.anEq| == |y.anEq| == |z.anEq| == nCol
    ensures BetterFrom(x, y, i) ==> !BetterFrom(y, x, i)
    ensures BetterFrom(x, y, i) ==> BetterFrom(x, z, i) || BetterFrom(z, y, i)
    decreases nCol - i
  {
    if i < nCol {
      BetterFromOrder(nCol, x, y, z, i + 1);
    }
  }

  /** From count `i` on, the samples differ first at `k`, where `x` has more rows; or only in their hash, when `k` is
      behind all counts. */
  ghost predicate AheadAt(x: Sample, y: Sample, i: nat, k: nat)
    requires |x.anEq| == |y.anEq|
  {
    i <= k && (forall j | i <= j < k && j < |x.anEq| :: x.anEq[j] == y.anEq[j]) &&
    if k < |x.anEq| then x.anEq[k] > y.anEq[k] else x.iHash > y.iHash
  }

  ghost predicate Ahead(x: Sample, y: Sample, i: nat)
    requires |x.anEq| == |y.anEq|
  {
    exists k: nat :: AheadAt(x, y, i, k)
  }

  lemma {:induction false} BetterFromMeans(x: Sample, y: Sample, i: nat)
    requires |x.anEq| == |y.anEq|
    ensures BetterFrom(x, y, i) <==> Ahead(x, y, i)
    decreases |x.anEq| - i
  {
    if i >= |x.anEq| || x.anEq[i] > y.anEq[i] {
      assert BetterFrom(x, y, i) ==> AheadAt(x, y, i, i);
    } else if x.anEq[i] == y.anEq[i] {
      BetterFromMeans(x, y, i + 1);
      AheadLater(x, y, i);
    }
  }

  lemma AheadLater(x: Sample, y: Sample, i: nat)
    requires i < |x.anEq| == |y.anEq| && x.anEq[i] == y.anEq[i]
    ensures Ahead(x, y, i + 1) <==> Ahead(x, y, i)
  {
    if Ahead(x, y, i + 1) {
      var k: nat :| AheadAt(x, y, i + 1, k);
      assert AheadAt(x, y, i, k);
    }
    if Ahead(x, y, i) {
      var k: nat :| AheadAt(x, y, i, k);
      assert AheadAt(x, y, i + 1, k);
    }
  }

  /** A sample is better than another when it was kept for more rows; for as many rows and fewer columns; or, as both
      are equal in this, when it comes first in the order of the counts of more columns, or of the hash. */
  lemma BetterMeans(x: Sample, y: Sample)
    requires x.iCol < |x.anEq| == |y.anEq| && y.iCol < |y.anEq|
    ensures x.anEq[x.iCol] != y.anEq[y.iCol] ==> (IsBetter(x, y) <==> x.anEq[x.iCol] > y.anEq[y.iCol])
    ensures x.anEq[x.iCol] == y.anEq[y.iCol] && x.iCol != y.iCol ==> (IsBetter(x, y) <==> x.iCol < y.iCol)
    ensures x.anEq[x.iCol] == y.anEq[y.iCol] && x.iCol == y.iCol ==>
              (IsBetter(x, y) <==> Ahead(x, y, x.iCol + 1))
  {
    BetterFromMeans(x, y, x.iCol + 1);
  }

  /** Asymmetric, and a sample between two others is comparable with one of them. */
  lemma BetterOrder(nCol: nat, x: Sample, y: Sample, z: Sample)
    requires Shaped(x, nCol) && Shaped(y, nCol) && Shaped(z, nCol)
    ensures IsBetter(x, y) ==> !IsBetter(y, x)
    ensures IsBetter(x, y) ==> IsBetter(x, z) || IsBetter(z, y)
  {
    BetterFromOrder(nCol, x, y, z, x.iCol + 1);
  }

  lemma BetterTrans(nCol: nat, x: Sample, y: Sample, z: Sample)
    requires Shaped(x, nCol) && Shaped(y, nCol) && Shaped(z, nCol)
    requires IsBetter(x, y) && IsBetter(y, z)
    ensures IsBetter(x, z)
  {
    BetterOrder(nCol, x, y, z);
    BetterOrder(nCol, y, z, z);
    BetterOrder(nCol, z, y, y);
  }

  /** No non-periodic sample of `a[..n]` is less preferred than `a[m]`. */
  ghost predicate Least(nCol: nat, a: seq<Sample>, n: nat, m: int)
    requires n <= |a| && AllShaped(a, nCol)
  {
    0 <= m < |a| && !a[m].isPSample &&
    forall k | 0 <= k < n && !a[k].isPSample :: !IsBetter(a[m], a[k])
  }

  lemma {:induction false} FindMinIsLeast(nCol: nat, a: seq<Sample>, n: nat)
    requires n <= |a| && AllShaped(a, nCol)
    ensures var m := FindMin(nCol, a, n); m >= 0 ==> Least(nCol, a, n, m)
  {
    if n > 0 {
      FindMinIsLeast(nCol, a, n - 1);
      var m0, m := FindMin(nCol, a, n - 1), FindMin(nCol, a, n);
      if m >= 0 {
        forall k | 0 <= k < n && !a[k].isPSample ensures !IsBetter(a[m], a[k]) {
          BetterOrder(nCol, a[m], a[k], a[k]);
          if m0 >= 0 && m == n - 1 && k < n - 1 && IsBetter(a[m], a[k]) {
            BetterTrans(nCol, a[m0], a[m], a[k]);
          }
        }
      }
    }
  }

  /** Sample `k` still waits for its count of the first `iCol + 1` columns. */
  predicate Waits(a: seq<Sample>, iCol: nat, k: nat) {
    k < |a| && iCol < |a[k].anEq| && a[k].anEq[iCol] == 0
  }

  /** What the scan of `a[n..]` has found. */
  ghost predicate FoundIn(nCol: nat, a: seq<Sample>, iCol: nat, n: nat, f: Found)
    requires AllShaped(a, nCol)
  {
    match f
    case Periodic => exists k :: n <= k < |a| && Waits(a, iCol, k) && a[k].isPSample
    case Nothing => forall k :: n <= k < |a| ==> !Waits(a, iCol, k)
    case Sharing(j) =>
      n <= j && Waits(a, iCol, j) && !a[j].isPSample &&
      forall k | n <= k < |a| && Waits(a, iCol, k) :: !a[k].isPSample && !IsBetter(a[k], a[j])
  }

  lemma {:induction false} ScanFinds(nCol: nat, a: seq<Sample>, iCol: nat, n: nat, best: Found)
    requires n <= |a| && AllShaped(a, nCol) && iCol < nCol
    requires best.Sharing? ==> best.k < |a| && !a[best.k].isPSample
    requires !best.Periodic? && FoundIn(nCol, a, iCol, n, best)
    ensures FoundIn(nCol, a, iCol, 0, ScanSharing(nCol, a, iCol, n, best))
  {
    if n > 0 {
      var k := n - 1;
      if Waits(a, iCol, k) && !a[k].isPSample {
        BetterOrder(nCol, a[k], a[k], a[k]);
        if !best.Sharing? || IsBetter(a[k], a[best.k]) {
          forall j | n <= j < |a| && Waits(a, iCol, j) ensures !IsBetter(a[j], a[k]) {
            if best.Sharing? && IsBetter(a[j], a[k]) {
              BetterTrans(nCol, a[j], a[k], a[best.k]);
            }
          }
          ScanFinds(nCol, a, iCol, k, Sharing(k));
        } else {
          ScanFinds(nCol, a, iCol, k, best);
        }
      } else if !Waits(a, iCol, k) {
        ScanFinds(nCol, a, iCol, k, best);
      }
    }
  }
}
