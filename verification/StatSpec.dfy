/** What one call of the sampler's entry points does to the accumulator, as functions on
    values. `StatAccum` runs the same steps in place. */
module StatSpec {

  datatype Rowid = Integer(i: int) | Blob(bytes: seq<bv8>)

  /** A row of the index with its counts, by number of leading columns. Entry `i` of a
      count array is about the first `i + 1` columns. */
  datatype Sample = Sample(anEq: seq<nat>, anLt: seq<nat>, anDLt: seq<nat>, rowid: Rowid,
                           isPSample: bool, iCol: nat, iHash: nat)

  datatype Accum = Accum(nEst: nat, nRow: nat, nCol: nat, nKeyCol: nat, current: Sample,
                         nPSample: nat, mxSample: nat, iPrn: nat, aBest: seq<Sample>,
                         iMin: int, nMaxEqZero: nat, a: seq<Sample>)

  predicate Shaped(x: Sample, nCol: nat) {
    |x.anEq| == |x.anLt| == |x.anDLt| == nCol && x.iCol < nCol
  }

  predicate AllShaped(a: seq<Sample>, nCol: nat) {
    forall k | 0 <= k < |a| :: Shaped(a[k], nCol)
  }

  /** What `statInit` allocates: the buffers of `current`, of `aBest[]` and of the samples. */
  predicate Allocated(s: Accum) {
    0 < s.nKeyCol <= s.nCol && 0 < s.nPSample && 0 < s.mxSample &&
    Shaped(s.current, s.nCol) && !s.current.isPSample && s.current.iCol == 0 &&
    |s.aBest| == s.nCol &&
    (forall i | 0 <= i < s.nCol :: Shaped(s.aBest[i], s.nCol) && !s.aBest[i].isPSample && s.aBest[i].iCol == i) &&
    AllShaped(s.a, s.nCol) &&
    |s.a| <= s.mxSample
  }

  /** While `a[]` is full, `iMin` names a sample that may be evicted. */
  predicate WellFormed(s: Accum) {
    Allocated(s) &&
    (|s.a| == s.mxSample ==> 0 <= s.iMin < |s.a| && !s.a[s.iMin].isPSample)
  }

  // -------------------- the preference order on candidate samples --------------------

  predicate BetterFrom(x: Sample, y: Sample, i: nat)
    requires |x.anEq| == |y.anEq|
    decreases |x.anEq| - i
  {
    if i >= |x.anEq| then x.iHash > y.iHash
    else if x.anEq[i] > y.anEq[i] then true
    else if x.anEq[i] < y.anEq[i] then false
    else BetterFrom(x, y, i + 1)
  }

  predicate IsBetterPost(x: Sample, y: Sample)
    requires |x.anEq| == |y.anEq|
  {
    BetterFrom(x, y, x.iCol + 1)
  }

  predicate IsBetter(x: Sample, y: Sample)
    requires x.iCol < |x.anEq| == |y.anEq| && y.iCol < |y.anEq|
  {
    var nEqNew, nEqOld := x.anEq[x.iCol], y.anEq[y.iCol];
    nEqNew > nEqOld ||
    (nEqNew == nEqOld && (x.iCol < y.iCol || (x.iCol == y.iCol && IsBetterPost(x, y))))
  }

  // -------------------- sampleInsert --------------------

  datatype Found = Periodic | Nothing | Sharing(k: nat)

  /** Scan `a[..n]` from its end for samples that still wait for their count of the first
      `iCol + 1` columns: a periodic one ends the scan, otherwise the best one is kept. */
  function ScanSharing(nCol: nat, a: seq<Sample>, iCol: nat, n: nat, best: Found): (f: Found)
    requires n <= |a| && AllShaped(a, nCol) && iCol < nCol
    requires best.Sharing? ==> best.k < |a| && !a[best.k].isPSample
    ensures f.Sharing? ==> f.k < |a| && !a[f.k].isPSample
  {
    if n == 0 then best
    else
      var old_ := a[n - 1];
      if old_.anEq[iCol] != 0 then ScanSharing(nCol, a, iCol, n - 1, best)
      else if old_.isPSample then Periodic
      else if !best.Sharing? || IsBetter(old_, a[best.k])
      then ScanSharing(nCol, a, iCol, n - 1, Sharing(n - 1))
      else ScanSharing(nCol, a, iCol, n - 1, best)
  }

  /** The least preferred of the non-periodic samples of `a[..n]`, or -1. */
  function FindMin(nCol: nat, a: seq<Sample>, n: nat): (m: int)
    requires n <= |a| && AllShaped(a, nCol)
    ensures -1 <= m < n && (m >= 0 ==> !a[m].isPSample)
    ensures m == -1 ==> forall k | 0 <= k < n :: a[k].isPSample
  {
    if n == 0 then -1
    else
      var m := FindMin(nCol, a, n - 1);
      if a[n - 1].isPSample then m
      else if m < 0 || IsBetter(a[m], a[n - 1]) then n - 1
      else m
  }

  function NewMin(s: Accum): (t: Accum)
    requires AllShaped(s.a, s.nCol)
    ensures t == s.(iMin := t.iMin)
  {
    if |s.a| >= s.mxSample then s.(iMin := FindMin(s.nCol, s.a, |s.a|)) else s
  }

  /** The first `n` equal-counts are not known yet. */
  function ZeroFirst(x: Sample, n: nat): Sample {
    x.(anEq := seq(|x.anEq|, i requires 0 <= i < |x.anEq| => if i < n then 0 else x.anEq[i]))
  }

  function Evict(s: Accum): seq<Sample>
    requires WellFormed(s)
  {
    if |s.a| >= s.mxSample then s.a[..s.iMin] + s.a[s.iMin + 1..] else s.a
  }

  function Upgrade(old_: Sample, pNew: Sample): Sample
    requires pNew.iCol < |old_.anEq| == |pNew.anEq|
  {
    old_.(iCol := pNew.iCol, anEq := old_.anEq[pNew.iCol := pNew.anEq[pNew.iCol]])
  }

  function Add(s: Accum, pNew: Sample, nEqZero: nat): (t: Accum)
    requires WellFormed(s) && Shaped(pNew, s.nCol)
    ensures t == s.(iMin := t.iMin, a := Evict(s) + [ZeroFirst(pNew, nEqZero)])
  {
    NewMin(s.(a := Evict(s) + [ZeroFirst(pNew, nEqZero)]))
  }

  function Insert(s: Accum, pNew: Sample, nEqZero: nat): (t: Accum)
    requires WellFormed(s) && Shaped(pNew, s.nCol)
    ensures t == s.(iMin := t.iMin, nMaxEqZero := t.nMaxEqZero, a := t.a)
  {
    var s1 := s.(nMaxEqZero := if nEqZero > s.nMaxEqZero then nEqZero else s.nMaxEqZero);
    if pNew.isPSample then Add(s1, pNew, nEqZero)
    else
      match ScanSharing(s.nCol, s.a, pNew.iCol, |s.a|, Nothing)
      case Periodic => s1
      case Sharing(k) => NewMin(s1.(a := s.a[k := Upgrade(s.a[k], pNew)]))
      case Nothing => Add(s1, pNew, nEqZero)
  }

  // -------------------- samplePushPrevious --------------------

  function PushBestAt(s: Accum, i: nat): (t: Accum)
    requires WellFormed(s) && i < s.nCol
    ensures |t.aBest| == s.nCol
    ensures t == s.(aBest := s.aBest[i := t.aBest[i]], iMin := t.iMin, nMaxEqZero := t.nMaxEqZero, a := t.a)
  {
    var best := s.aBest[i].(anEq := s.aBest[i].anEq[i := s.current.anEq[i]]);
    var s1 := s.(aBest := s.aBest[i := best]);
    if |s.a| < s.mxSample || IsBetter(best, s.a[s.iMin]) then Insert(s1, best, i) else s1
  }

  /** The number of rows before this one: all rows differ, so the less-than count of all
      columns together is the row's position in the index. */
  function RowOf(x: Sample): nat {
    if x.anLt == [] then 0 else x.anLt[|x.anLt| - 1]
  }

  /** The rows kept as periodic samples, in the order of `a[]`. */
  ghost function PeriodicRows(a: seq<Sample>): (n: seq<nat>)
    ensures |n| <= |a|
  {
    if a == [] then []
    else PeriodicRows(a[..|a| - 1]) + if a[|a| - 1].isPSample then [RowOf(a[|a| - 1])] else []
  }

  lemma {:induction false} SomeNonPeriodic(a: seq<Sample>)
    requires |PeriodicRows(a)| < |a|
    ensures exists k :: 0 <= k < |a| && !a[k].isPSample
  {
    var n := |a| - 1;
    if a[n].isPSample {
      SomeNonPeriodic(a[..n]);
      var k :| 0 <= k < n && !a[..n][k].isPSample;
      assert !a[k].isPSample;
    }
  }

  lemma {:induction false} PeriodicRowsConcat(a: seq<Sample>, b: seq<Sample>)
    ensures PeriodicRows(a + b) == PeriodicRows(a) + PeriodicRows(b)
  {
    if b == [] {
      assert a + b == a;
    } else {
      assert (a + b)[..|a + b| - 1] == a + b[..|b| - 1];
      PeriodicRowsConcat(a, b[..|b| - 1]);
    }
  }

  lemma {:induction false} WithoutNonPeriodic(a: seq<Sample>, m: nat)
    requires m < |a| && !a[m].isPSample
    ensures PeriodicRows(a[..m] + a[m + 1..]) == PeriodicRows(a)
  {
    var n, w := |a| - 1, a[..m] + a[m + 1..];
    if m == n {
      assert w == a[..n];
    } else {
      assert w[..n - 1] == a[..n][..m] + a[..n][m + 1..] && w[n - 1] == a[n];
      WithoutNonPeriodic(a[..n], m);
    }
  }

  /** Eviction never takes a periodic sample. */
  lemma EvictKeepsPeriodic(s: Accum)
    requires WellFormed(s)
    ensures AllShaped(Evict(s), s.nCol) && |Evict(s)| < s.mxSample
    ensures PeriodicRows(Evict(s)) == PeriodicRows(s.a)
  {
    if |s.a| >= s.mxSample {
      WithoutNonPeriodic(s.a, s.iMin);
    }
  }

  lemma AddWellFormed(s: Accum, pNew: Sample, nEqZero: nat)
    requires WellFormed(s) && Shaped(pNew, s.nCol)
    requires pNew.isPSample ==> |PeriodicRows(s.a)| + 1 < s.mxSample
    ensures WellFormed(Add(s, pNew, nEqZero))
  {
    var z := ZeroFirst(pNew, nEqZero);
    OnePeriodic(z);
    assert z.isPSample == pNew.isPSample;
    hide *;
    AddIs(s, pNew, nEqZero);
    EvictKeepsPeriodic(s);
    PeriodicRowsConcat(Evict(s), [z]);
    NewMinWellFormed(s.(a := Evict(s) + [z]));
  }

  lemma AddIs(s: Accum, x: Sample, n: nat)
    requires WellFormed(s) && Shaped(x, s.nCol)
    ensures Allocated(s) && Allocated(s.(a := Evict(s) + [ZeroFirst(x, n)]))
    ensures Add(s, x, n) == NewMin(s.(a := Evict(s) + [ZeroFirst(x, n)]))
  {
  }

  lemma OnePeriodic(x: Sample)
    ensures |PeriodicRows([x])| == if x.isPSample then 1 else 0
  {
    assert [x][..0] == [];
  }

  lemma NewMinWellFormed(s: Accum)
    requires Allocated(s) && |PeriodicRows(s.a)| < s.mxSample
    ensures WellFormed(NewMin(s))
  {
    hide PeriodicRows, IsBetter, Shaped;
    if |s.a| == s.mxSample {
      SomeNonPeriodic(s.a);
    }
  }

  lemma InsertWellFormed(s: Accum, pNew: Sample, nEqZero: nat)
    requires WellFormed(s) && Shaped(pNew, s.nCol)
    requires pNew.isPSample ==> |PeriodicRows(s.a)| + 1 < s.mxSample
    ensures WellFormed(Insert(s, pNew, nEqZero))
  {
    var s1 := s.(nMaxEqZero := if nEqZero > s.nMaxEqZero then nEqZero else s.nMaxEqZero);
    AddWellFormed(s1, pNew, nEqZero);
    if !pNew.isPSample {
      var f := ScanSharing(s.nCol, s.a, pNew.iCol, |s.a|, Nothing);
      if f.Sharing? {
        var t := Insert(s, pNew, nEqZero);
        assert !t.a[f.k].isPSample;
      }
    }
  }

  lemma PushBestAtWellFormed(s: Accum, i: nat)
    requires WellFormed(s) && i < s.nCol
    ensures WellFormed(PushBestAt(s, i))
  {
    var best := s.aBest[i].(anEq := s.aBest[i].anEq[i := s.current.anEq[i]]);
    var s1 := s.(aBest := s.aBest[i := best]);
    InsertWellFormed(s1, best, i);
  }

  /** The best rows of the groups that end, from the narrowest group to the widest. */
  function PushBest(s: Accum, i: int, c: nat): (t: Accum)
    requires WellFormed(s) && i < s.nCol
    ensures WellFormed(t)
    ensures t == s.(aBest := t.aBest, iMin := t.iMin, nMaxEqZero := t.nMaxEqZero, a := t.a)
    decreases i + 1
  {
    if i < c then s
    else
      PushBestAtWellFormed(s, i);
      PushBest(PushBestAt(s, i), i - 1, c)
  }

  /** Counts that were not known are known now, from column `c` on. */
  function FillOne(x: Sample, anEq: seq<nat>, c: nat): Sample
    requires |x.anEq| == |anEq|
  {
    x.(anEq := seq(|anEq|, j requires 0 <= j < |anEq| =>
                     if j >= c && x.anEq[j] == 0 then anEq[j] else x.anEq[j]))
  }

  function Fill(s: Accum, c: nat): (t: Accum)
    requires WellFormed(s)
    ensures WellFormed(t) && t == s.(nMaxEqZero := t.nMaxEqZero, a := t.a)
  {
    if c < s.nMaxEqZero then
      s.(a := seq(|s.a|, k requires 0 <= k < |s.a| => FillOne(s.a[k], s.current.anEq, c)),
         nMaxEqZero := c)
    else s
  }

  function PushPrevious(s: Accum, c: nat): (t: Accum)
    requires WellFormed(s)
    ensures WellFormed(t)
    ensures t == s.(aBest := t.aBest, iMin := t.iMin, nMaxEqZero := t.nMaxEqZero, a := t.a)
  {
    Fill(PushBest(s, s.nCol - 2, c), c)
  }

  // -------------------- statPush --------------------

  /** The counts of the row that arrives, which differs from the row before first in column `c`. */
  function NextCounts(x: Sample, nRow: nat, c: nat): (y: Sample)
    requires |x.anEq| == |x.anLt| == |x.anDLt|
  {
    var n := |x.anEq|;
    if nRow == 0 then x.(anEq := seq(n, _ => 1))
    else
      x.(anEq := seq(n, i requires 0 <= i < n => if i < c then x.anEq[i] + 1 else 1),
         anLt := seq(n, i requires 0 <= i < n => if i < c then x.anLt[i] else x.anLt[i] + x.anEq[i]),
         anDLt := seq(n, i requires 0 <= i < n => if i < c then x.anDLt[i] else x.anDLt[i] + 1))
  }

  /** The 32-bit generator behind the tie-breaking hash. */
  function NextPrn(iPrn: nat): nat {
    (iPrn * 1103515245 + 12345) % 0x1_0000_0000
  }

  function Arrive(s: Accum, c: nat, id: Rowid): (t: Accum)
    requires WellFormed(s)
    ensures WellFormed(t)
  {
    var prn := NextPrn(s.iPrn);
    s.(nRow := s.nRow + 1, iPrn := prn,
       current := NextCounts(s.current, s.nRow, c).(rowid := id, iHash := prn))
  }

  /** Row number `n` of the scan is to be kept as a periodic sample. */
  predicate PeriodicRow(n: nat, nPSample: nat)
    requires nPSample > 0
  {
    n / nPSample != (n + 1) / nPSample
  }

  function KeepPeriodic(s: Accum): (t: Accum)
    requires WellFormed(s)
    ensures Allocated(t)
  {
    if PeriodicRow(s.current.anLt[s.nCol - 1], s.nPSample)
    then Insert(s, s.current.(isPSample := true), s.nCol - 1)
    else s
  }

  function UpdateBest(s: Accum, c: nat): Accum
    requires Allocated(s)
  {
    s.(aBest := seq(s.nCol, i requires 0 <= i < s.nCol =>
      var x := s.current.(iCol := i);
      if i < s.nCol - 1 && (i >= c || IsBetterPost(x, s.aBest[i])) then x else s.aBest[i]))
  }

  ghost predicate PeriodicFits(s: Accum)
    requires WellFormed(s)
  {
    PeriodicRow(s.current.anLt[s.nCol - 1], s.nPSample) ==> |PeriodicRows(s.a)| + 1 < s.mxSample
  }

  function PushRow(s: Accum, c: nat, id: Rowid): Accum
    requires WellFormed(s)
  {
    var s1 := if s.nRow == 0 then s else PushPrevious(s, c);
    var s2 := Arrive(s1, c, id);
    UpdateBest(KeepPeriodic(s2), c)
  }

  // -------------------- statInit and statGet --------------------

  /** How often a row is kept as a periodic sample. */
  function SampleInterval(nEst: nat, mxSample: nat): (n: nat)
    ensures n > 0
  {
    nEst / (mxSample / 3 + 1) + 1
  }

  /** The first pseudo-random number. */
  function Seed(nCol: nat, nEst: nat): nat {
    var x, y := 0x689e962d * nCol % 0x1_0000_0000, 0xd0944565 * nEst % 0x1_0000_0000;
    ((x as bv32) ^ (y as bv32)) as nat
  }

  function EmptySample(nCol: nat, iCol: nat): Sample {
    var zeros := seq(nCol, _ => 0);
    Sample(zeros, zeros, zeros, Integer(0), false, iCol, 0)
  }

  /** `seed` is the first pseudo-random number, made of the column count and the row estimate. */
  function Init(nCol: nat, nKeyCol: nat, nEst: nat, mxSample: nat, seed: nat): (s: Accum)
    requires 0 < nKeyCol <= nCol && 0 < mxSample
    ensures WellFormed(s)
  {
    Accum(nEst, 0, nCol, nKeyCol, EmptySample(nCol, 0), SampleInterval(nEst, mxSample), mxSample, seed,
          seq(nCol, i requires 0 <= i < nCol => EmptySample(nCol, i)), 0, 0, [])
  }

  /** The estimate of the rows that match one value, among `nRow` rows with `nDistinct` values:
      the quotient rounded up, except that up to 1.1 counts as 1. */
  function Estimate(nRow: nat, nDistinct: nat): nat
    requires nDistinct > 0
  {
    var iVal := (nRow + nDistinct - 1) / nDistinct;
    if iVal == 2 && nRow * 10 <= nDistinct * 11 then 1 else iVal
  }

  /** The numbers of the `stat` column of sqlite_stat1: `n` rows, and an estimate for each key column. */
  function Stat1(n: nat, nRow: nat, nKeyCol: nat, x: Sample): seq<nat>
    requires nKeyCol <= |x.anDLt|
  {
    [n] + seq(nKeyCol, i requires 0 <= i < nKeyCol => Estimate(nRow, x.anDLt[i] + 1))
  }
}
