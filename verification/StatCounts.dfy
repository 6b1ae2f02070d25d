/** The counters of ANALYZE, which are the same with and without samples, and the estimates made from them. */
module StatCounts {
  import opened Arith
  import opened IndexRows
  import opened StatSpec
  import opened Wrappers
  import opened StatTheorems

  /** What statPush() counts in every build and for every number of samples: `nSkipAhead` says how often the scan
      was told to skip rows that repeat the first column. */
  datatype Tally = Tally(nRow: nat, nSkipAhead: nat, current: Sample)

  /** The counters of one row. The less-than counts are kept for samples only. */
  function Count(t: Tally, c: nat, mxSample: nat): (u: Tally)
    requires |t.current.anEq| == |t.current.anLt| == |t.current.anDLt|
    ensures |u.current.anEq| == |u.current.anLt| == |u.current.anDLt| == |t.current.anEq| && u.nRow == t.nRow + 1
  {
    var x := NextCounts(t.current, t.nRow, c);
    t.(nRow := t.nRow + 1, current := if mxSample > 0 then x else x.(anLt := t.current.anLt))
  }

  predicate Skips(t: Tally, mxSample: nat, nLimit: nat) {
    mxSample == 0 && nLimit > 0 && t.nRow > nLimit * (t.nSkipAhead + 1)
  }

  function Push(t: Tally, c: nat, mxSample: nat, nLimit: nat): (u: Tally)
    requires |t.current.anEq| == |t.current.anLt| == |t.current.anDLt|
    ensures |u.current.anEq| == |u.current.anLt| == |u.current.anDLt| == |t.current.anEq| && u.nRow == t.nRow + 1
  {
    var u := Count(t, c, mxSample);
    if Skips(u, mxSample, nLimit) then u.(nSkipAhead := u.nSkipAhead + 1) else u
  }

  /** The counters after the rows whose first changed columns are given. */
  function Tallied(iChng: seq<nat>, nCol: nat, mxSample: nat, nLimit: nat): (t: Tally)
    ensures |t.current.anEq| == |t.current.anLt| == |t.current.anDLt| == nCol && t.nRow == |iChng|
  {
    if iChng == [] then Tally(0, 0, EmptySample(nCol, 0))
    else Push(Tallied(iChng[..|iChng| - 1], nCol, mxSample, nLimit), iChng[|iChng| - 1], mxSample, nLimit)
  }

  /** The number that the list starts with. */
  function Rows(t: Tally, nEst: nat): nat {
    if t.nSkipAhead > 0 then nEst else t.nRow
  }

  // -------------------- the counts of the current row --------------------

  ghost predicate CountsEq(rows: seq<Row>, nCol: nat, x: Sample) {
    Shaped(x, nCol) && rows != [] &&
    forall i | 0 <= i < nCol ::
      x.anEq[i] == CountEq(rows, rows[|rows| - 1], i + 1) &&
      x.anDLt[i] == |LesserPrefixes(rows, rows[|rows| - 1], i + 1)|
  }

  ghost predicate CountsLt(rows: seq<Row>, nCol: nat, x: Sample) {
    Shaped(x, nCol) && rows != [] &&
    forall i | 0 <= i < nCol :: x.anLt[i] == CountLess(rows, rows[|rows| - 1], i + 1) && x.anLt[i] + x.anEq[i] == |rows|
  }

  lemma FirstCounts(y: Row)
    requires 0 < |y|
    ensures var z := NextCounts(EmptySample(|y|, 0), 0, 0); CountsEq([y], |y|, z) && CountsLt([y], |y|, z)
  {
    forall k: nat | k <= |y|
      ensures CountLess([y], y, k) == 0 && LesserPrefixes([y], y, k) == {} && CountEq([y], y, k) == 1
    {
      assert [] + [y] == [y];
      CountPush([], y, y, k);
    }
  }

  lemma NextCountsExact(x: Sample, rows: seq<Row>, nCol: nat, y: Row, c: nat)
    requires Sorted(rows, nCol) && rows != [] && LessAt(rows[|rows| - 1], y, c) && CountsEq(rows, nCol, x)
    ensures var z := NextCounts(x, |rows|, c);
            CountsEq(rows + [y], nCol, z) && (CountsLt(rows, nCol, x) ==> CountsLt(rows + [y], nCol, z))
  {
    var z, all := NextCounts(x, |rows|, c), rows + [y];
    assert all[|all| - 1] == y;
    forall i | 0 <= i < nCol
      ensures z.anEq[i] == CountEq(all, y, i + 1) && z.anDLt[i] == |LesserPrefixes(all, y, i + 1)|
      ensures CountsLt(rows, nCol, x) ==> z.anLt[i] == CountLess(all, y, i + 1) && z.anLt[i] + z.anEq[i] == |all|
    {
      if i < c {
        PrefixGoesOn(rows, nCol, y, c, i);
      } else {
        PrefixStarts(rows, nCol, y, c, i);
      }
      hide CountEq, CountLess, LesserPrefixes, Sorted, LessAt;
    }
  }

  /** After any scan, the equal and the distinct-less-than counts of the current row are exact for every prefix, and
      the less-than counts are too where samples are kept: for every number of samples, every estimate of the rows and
      every limit. */
  lemma {:induction false} RunningCounts(rows: seq<Row>, iChng: seq<nat>, ids: seq<Rowid>, nCol: nat, mxSample: nat,
                                         nLimit: nat)
    requires 0 < nCol && IsScan(rows, iChng, ids, nCol) && rows != []
    ensures var x := Tallied(iChng, nCol, mxSample, nLimit).current;
            CountsEq(rows, nCol, x) && (mxSample > 0 ==> CountsLt(rows, nCol, x))
  {
    var n := |rows| - 1;
    if n == 0 {
      assert iChng[..0] == [] && rows == [rows[0]];
      FirstCounts(rows[0]);
    } else {
      ScanTake(rows, iChng, ids, nCol, n);
      RunningCounts(rows[..n], iChng[..n], ids[..n], nCol, mxSample, nLimit);
      var t := Tallied(iChng[..n], nCol, mxSample, nLimit);
      assert rows == rows[..n] + [rows[n]] && rows[..n][n - 1] == rows[n - 1];
      NextCountsExact(t.current, rows[..n], nCol, rows[n], iChng[n]);
      hide CountEq, CountLess, LesserPrefixes, Sorted, NextCounts;
    }
  }

  lemma NextCurrent(s: Accum, c: nat, id: Rowid)
    requires WellFormed(s)
    ensures var t := PushRow(s, c, id); var z := NextCounts(s.current, s.nRow, c);
            t.nRow == s.nRow + 1 && t.current.anEq == z.anEq && t.current.anLt == z.anLt && t.current.anDLt == z.anDLt
  {
    hide PushPrevious, Insert, WellFormed, Allocated;
  }

  /** The sampler counts just the same. */
  lemma {:induction false} SamplerCounts(rows: seq<Row>, iChng: seq<nat>, ids: seq<Rowid>,
                                         nCol: nat, nKeyCol: nat, nEst: nat, mxSample: nat, seed: nat)
    requires 0 < nKeyCol <= nCol && 0 < mxSample && IsScan(rows, iChng, ids, nCol) && HasRoom(|rows|, nEst, mxSample)
    ensures var s, t := Run(rows, iChng, ids, nCol, nKeyCol, nEst, mxSample, seed), Tallied(iChng, nCol, mxSample, 0);
            s.nRow == t.nRow && t.nSkipAhead == 0 &&
            s.current.anEq == t.current.anEq && s.current.anLt == t.current.anLt && s.current.anDLt == t.current.anDLt
  {
    if rows != [] {
      var n := |rows| - 1;
      RoomBefore(n, nEst, mxSample);
      ScanTake(rows, iChng, ids, nCol, n);
      SamplerCounts(rows[..n], iChng[..n], ids[..n], nCol, nKeyCol, nEst, mxSample, seed);
      var s, t := Run(rows[..n], iChng[..n], ids[..n], nCol, nKeyCol, nEst, mxSample, seed),
        Tallied(iChng[..n], nCol, mxSample, 0);
      RunLonger(rows, iChng, ids, nCol, nKeyCol, nEst, mxSample, seed);
      TalliedLonger(iChng, nCol, mxSample);
      hide *;
      NextCurrent(s, iChng[n], ids[n]);
      NextCountsAlike(s.current, t.current, n, iChng[n]);
    }
  }

  lemma TalliedLonger(iChng: seq<nat>, nCol: nat, mxSample: nat)
    requires iChng != [] && 0 < mxSample
    ensures var n := |iChng| - 1;
            var t := Tallied(iChng[..n], nCol, mxSample, 0);
            Tallied(iChng, nCol, mxSample, 0) == t.(nRow := n + 1, current := NextCounts(t.current, n, iChng[n]))
  {
    hide NextCounts;
  }

  /** The next counts depend on the counts alone. */
  lemma NextCountsAlike(x: Sample, y: Sample, n: nat, c: nat)
    requires x.anEq == y.anEq && x.anLt == y.anLt && x.anDLt == y.anDLt && |x.anEq| == |x.anLt| == |x.anDLt|
    ensures var x1, y1 := NextCounts(x, n, c), NextCounts(y, n, c);
            x1.anEq == y1.anEq && x1.anLt == y1.anLt && x1.anDLt == y1.anDLt
  {
  }

  // -------------------- the estimates --------------------

  /** Rows are skipped after each `nLimit` rows, when there is a limit. */
  lemma {:induction false} SkipsAfterLimit(iChng: seq<nat>, nCol: nat, mxSample: nat, nLimit: nat)
    ensures var n, k := |iChng|, Tallied(iChng, nCol, mxSample, nLimit).nSkipAhead;
            if mxSample == 0 && nLimit > 0 && n > 0 then k == (n - 1) / nLimit else k == 0
    ensures Tallied(iChng, nCol, mxSample, nLimit).nSkipAhead > 0 <==> mxSample == 0 && 0 < nLimit < |iChng|
  {
    if iChng != [] {
      var n := |iChng| - 1;
      SkipsAfterLimit(iChng[..n], nCol, mxSample, nLimit);
      hide NextCounts;
      if mxSample == 0 && nLimit > 0 && n > 0 {
        SkipsStep(n, nLimit);
      }
    }
  }

  lemma SkipsStep(n: nat, nLimit: nat)
    requires 0 < n && 0 < nLimit
    ensures var k := (n - 1) / nLimit;
            n / nLimit == (if n + 1 > nLimit * (k + 1) then k + 1 else k) && (n / nLimit > 0 <==> nLimit <= n)
  {
    var k, r := (n - 1) / nLimit, (n - 1) % nLimit;
    assert n - 1 == nLimit * k + r;
    assert nLimit * (k + 1) == nLimit * k + nLimit;
    if r + 1 == nLimit {
      QuotientIs(n, nLimit, k + 1, 0);
    } else {
      QuotientIs(n, nLimit, k, r + 1);
    }
    if n < nLimit { QuotientIs(n, nLimit, 0, n); }
    if nLimit <= n && n / nLimit == 0 {
      assert n == nLimit * (n / nLimit) + n % nLimit;
    }
  }

  lemma RoundedUp(n: nat, d: nat)
    requires 0 < d <= n
    ensures var q := (n + d - 1) / d; d * (q - 1) < n <= d * q && 1 <= q <= n
  {
    var q, r := (n + d - 1) / d, (n + d - 1) % d;
    assert n + d - 1 == d * q + r && r < d;
    assert d * (q - 1) == d * q - d;
    if q < 1 {
      MulMono(d, q, 0);
    }
    if n < q {
      MulMono(d, n, q - 1);
      MulMono(n, 1, d);
    }
  }

  lemma EstimateOrder(nRow: nat, d: nat, e: nat)
    requires 0 < d <= e <= nRow
    ensures 1 <= Estimate(nRow, e) <= Estimate(nRow, d) <= nRow
  {
    var p, q := (nRow + d - 1) / d, (nRow + e - 1) / e;
    RoundedUp(nRow, d);
    RoundedUp(nRow, e);
    if p < q {
      MulMono(e, p, q - 1);
      MulMono(p, d, e);
      assert false;
    }
  }

  lemma DistinctCount(rows: seq<Row>, nCol: nat, x: Sample, k: nat)
    requires Sorted(rows, nCol) && CountsEq(rows, nCol, x) && 1 <= k <= nCol
    ensures 0 < |Prefixes(rows, k)| == x.anDLt[k - 1] + 1 <= |rows|
  {
    PrefixesOfLast(rows, nCol, k);
    PrefixesBounded(rows, k);
  }

  /** The estimate of one key column is made of the exact number of its prefixes. */
  ghost predicate Estimates(rows: seq<Row>, list: seq<nat>, i: nat) {
    i < |list| && IsEstimate(|rows|, |Prefixes(rows, i)|, list[i])
  }

  /** `e` rows match one of `d` values on average: the quotient rounded up, except that up to 1.1 counts as 1. */
  predicate IsEstimate(n: nat, d: nat, e: nat) {
    0 < d <= n && if 10 * n <= 11 * d then e == 1 else d * (e - 1) < n <= d * e
  }

  lemma EstimateIs(n: nat, d: nat, e: nat)
    requires 0 < d <= n
    ensures IsEstimate(n, d, e) <==> e == Estimate(n, d)
  {
    var q := (n + d - 1) / d;
    RoundedUp(n, d);
    if d * (e - 1) < n <= d * e {
      if q < e { MulMono(d, q, e - 1); } else if e < q { MulMono(d, e, q - 1); }
    }
    if 10 * n <= 11 * d && 3 <= q { MulMono(d, 2, q - 1); }
  }

  lemma EstimatesFall(rows: seq<Row>, nCol: nat, list: seq<nat>, i: nat, j: nat)
    requires Sorted(rows, nCol) && i <= j <= nCol && Estimates(rows, list, i) && Estimates(rows, list, j)
    ensures 1 <= list[j] <= list[i] <= |rows|
  {
    PrefixesGrow(rows, nCol, i, j);
    EstimateIs(|rows|, |Prefixes(rows, i)|, list[i]);
    EstimateIs(|rows|, |Prefixes(rows, j)|, list[j]);
    EstimateOrder(|rows|, |Prefixes(rows, i)|, |Prefixes(rows, j)|);
  }

  /** The numbers of the list, each made of an exact count. */
  lemma ListEstimates(rows: seq<Row>, iChng: seq<nat>, ids: seq<Rowid>,
                      nCol: nat, nKeyCol: nat, nEst: nat, mxSample: nat, nLimit: nat)
    requires 0 < nKeyCol <= nCol && IsScan(rows, iChng, ids, nCol) && rows != []
    ensures var t := Tallied(iChng, nCol, mxSample, nLimit);
            var list, skipped := Stat1(Rows(t, nEst), t.nRow, nKeyCol, t.current), mxSample == 0 && 0 < nLimit < |rows|;
            |list| == nKeyCol + 1 && list[0] == (if skipped then nEst else |rows|) && Sorted(rows, nCol) &&
            forall i | 1 <= i < |list| :: Estimates(rows, list, i)
  {
    var t := Tallied(iChng, nCol, mxSample, nLimit);
    var list := Stat1(Rows(t, nEst), t.nRow, nKeyCol, t.current);
    assert |iChng| == |rows| && Sorted(rows, nCol);
    FirstNumber(t.current, Rows(t, nEst), t.nRow, nKeyCol);
    hide *;
    RunningCounts(rows, iChng, ids, nCol, mxSample, nLimit);
    SkipsAfterLimit(iChng, nCol, mxSample, nLimit);
    StartsWith(iChng, nCol, nEst, mxSample, nLimit);
    forall i | 1 <= i < |list|
      ensures Estimates(rows, list, i)
    {
      ListNumber(rows, nCol, t.current, Rows(t, nEst), nKeyCol, i);
    }
  }

  lemma FirstNumber(x: Sample, n: nat, nRow: nat, nKeyCol: nat)
    requires nKeyCol <= |x.anDLt|
    ensures |Stat1(n, nRow, nKeyCol, x)| == nKeyCol + 1 && Stat1(n, nRow, nKeyCol, x)[0] == n
  {
  }

  lemma StartsWith(iChng: seq<nat>, nCol: nat, nEst: nat, mxSample: nat, nLimit: nat)
    ensures var t := Tallied(iChng, nCol, mxSample, nLimit); Rows(t, nEst) == if t.nSkipAhead > 0 then nEst else |iChng|
  {
  }

  lemma ListNumber(rows: seq<Row>, nCol: nat, x: Sample, n: nat, nKeyCol: nat, i: nat)
    requires Sorted(rows, nCol) && CountsEq(rows, nCol, x) && 1 <= i <= nKeyCol <= nCol == |x.anDLt|
    ensures Estimates(rows, Stat1(n, |rows|, nKeyCol, x), i)
  {
    DistinctCount(rows, nCol, x, i);
    EstimateIs(|rows|, |Prefixes(rows, i)|, Stat1(n, |rows|, nKeyCol, x)[i]);
    hide Sorted, CountsEq, Prefixes, Estimate, IsEstimate;
  }

  /** The `stat` column, for every number of samples, every estimate of the rows and every limit: the number of rows,
      or the estimate of it after skipping, and then for every key column an estimate made of the exact number of
      distinct values of the columns so far. The estimates never increase and never fall below 1; and they stay
      within the first number, unless rows were skipped and the estimate of the rows is too small. */
  lemma Stat1Falls(rows: seq<Row>, iChng: seq<nat>, ids: seq<Rowid>,
                   nCol: nat, nKeyCol: nat, nEst: nat, mxSample: nat, nLimit: nat)
    requires 0 < nKeyCol <= nCol && IsScan(rows, iChng, ids, nCol) && rows != []
    ensures var t := Tallied(iChng, nCol, mxSample, nLimit);
            var list, skipped := Stat1(Rows(t, nEst), t.nRow, nKeyCol, t.current), mxSample == 0 && 0 < nLimit < |rows|;
            |list| == nKeyCol + 1 && list[0] == (if skipped then nEst else |rows|) &&
            (forall i | 1 <= i < |list| :: Estimates(rows, list, i)) &&
            (forall i, j | 1 <= i <= j < |list| :: 1 <= list[j] <= list[i] <= |rows|) &&
            (skipped && nEst < list[1] <==> exists j :: 1 <= j < |list| && list[0] < list[j])
  {
    ListEstimates(rows, iChng, ids, nCol, nKeyCol, nEst, mxSample, nLimit);
    hide *;
    var t := Tallied(iChng, nCol, mxSample, nLimit);
    var list := Stat1(Rows(t, nEst), t.nRow, nKeyCol, t.current);
    forall i, j | 1 <= i <= j < |list|
      ensures 1 <= list[j] <= list[i] <= |rows|
    {
      EstimatesFall(rows, nCol, list, i, j);
    }
    assert 1 < |list| && list[1] <= list[1];
  }

  // -------------------- the code --------------------

  /** The accumulator without samples: STAT4 switched off, or a limit on the rows. */
  class RowCounter {
    const nCol: nat
    const nKeyCol: nat
    const nEst: nat
    const nLimit: nat
    var nRow: nat
    var nSkipAhead: nat
    const anEq: array<nat>
    const anDLt: array<nat>

    ghost predicate Valid()
      reads this
    {
      0 < nKeyCol <= nCol && anEq != anDLt && anEq.Length == anDLt.Length == nCol
    }

    ghost function State(): Tally
      requires Valid()
      reads this, anEq, anDLt
    {
      Tally(nRow, nSkipAhead, EmptySample(nCol, 0).(anEq := anEq[..], anDLt := anDLt[..]))
    }

    constructor (nCol: nat, nKeyCol: nat, nEst: nat, nLimit: nat)
      requires 0 < nKeyCol <= nCol
      ensures Valid() && this.nCol == nCol && this.nKeyCol == nKeyCol && this.nEst == nEst && this.nLimit == nLimit
      ensures fresh(anEq) && fresh(anDLt) && State() == Tallied([], nCol, 0, nLimit)
    {
      this.nCol, this.nKeyCol, this.nEst, this.nLimit := nCol, nKeyCol, nEst, nLimit;
      nRow, nSkipAhead := 0, 0;
      anEq, anDLt := new nat[nCol](_ => 0), new nat[nCol](_ => 0);
      new;
      assert anEq[..] == seq(nCol, _ => 0) && anDLt[..] == seq(nCol, _ => 0);
    }

    /** Advance the counters. */
    method CountRow(iChng: nat)
      requires Valid() && iChng < nCol
      modifies this`nRow, anEq, anDLt
      ensures State() == Count(old(State()), iChng, 0)
    {
      ghost var t := State();
      ghost var z := NextCounts(t.current, t.nRow, iChng);
      if nRow == 0 {
        for i := 0 to nCol
          invariant nRow == old(nRow) && anDLt[..] == old(anDLt[..]) && forall k | 0 <= k < i :: anEq[k] == 1
        {
          anEq[i] := 1;
        }
      } else {
        for i := 0 to iChng
          invariant nRow == old(nRow) && anDLt[..] == old(anDLt[..])
          invariant forall k | 0 <= k < nCol :: anEq[k] == if k < i then old(anEq[k]) + 1 else old(anEq[k])
        {
          anEq[i] := anEq[i] + 1;
        }
        for i := iChng to nCol
          invariant nRow == old(nRow)
          invariant forall k | 0 <= k < nCol ::
                      anEq[k] == if k < iChng then old(anEq[k]) + 1 else if k < i then 1 else old(anEq[k])
          invariant forall k | 0 <= k < nCol :: anDLt[k] == if iChng <= k < i then old(anDLt[k]) + 1 else old(anDLt[k])
        {
          anDLt[i] := anDLt[i] + 1;
          anEq[i] := 1;
        }
      }
      assert anEq[..] == z.anEq && anDLt[..] == z.anDLt;
      nRow := nRow + 1;
      assert State() == t.(nRow := t.nRow + 1, current := z.(anLt := t.current.anLt));
    }

    /** stat_push() without samples. Without an answer the scan goes on to the next row; false has it seek past the rows
        with the present value of the first column; and true, once that column has changed, ends it. */
    method StatPush(iChng: nat) returns (skip: Option<bool>)
      requires Valid() && iChng < nCol
      modifies this`nRow, this`nSkipAhead, anEq, anDLt
      ensures State() == Push(old(State()), iChng, 0, nLimit)
      ensures skip == if nSkipAhead == old(nSkipAhead) then None else Some(anDLt[0] > 0)
    {
      CountRow(iChng);
      hide Count, NextCounts;
      skip := None;
      if nLimit > 0 && nRow > nLimit * (nSkipAhead + 1) {
        nSkipAhead := nSkipAhead + 1;
        skip := Some(anDLt[0] > 0);
      }
    }

    /** stat_get(P): the list of the stat column. */
    method StatGet() returns (list: seq<nat>)
      requires Valid()
      ensures list == Stat1(Rows(State(), nEst), nRow, nKeyCol, State().current)
    {
      list := [if nSkipAhead > 0 then nEst else nRow];
      for i := 0 to nKeyCol
        invariant list == Stat1(Rows(State(), nEst), nRow, i, State().current)
      {
        var nDistinct := anDLt[i] + 1;
        var iVal := (nRow + nDistinct - 1) / nDistinct;
        if iVal == 2 && nRow * 10 <= nDistinct * 11 { iVal := 1; }
        list := list + [iVal];
      }
    }
  }

  /** ANALYZE without samples. */
  method AnalyzeCounts(ghost rows: seq<Row>, iChng: seq<nat>, ghost ids: seq<Rowid>,
                       nCol: nat, nKeyCol: nat, nEst: nat, nLimit: nat) returns (list: seq<nat>)
    requires 0 < nKeyCol <= nCol && IsScan(rows, iChng, ids, nCol) && rows != []
    ensures |list| == nKeyCol + 1 && list[0] == if 0 < nLimit < |rows| then nEst else |rows|
    ensures forall i | 1 <= i < |list| :: Estimates(rows, list, i)
    ensures forall i, j | 1 <= i <= j < |list| :: 1 <= list[j] <= list[i] <= |rows|
  {
    var p := new RowCounter(nCol, nKeyCol, nEst, nLimit);
    assert |iChng| == |rows|;
    hide Estimates, Push;
    for t := 0 to |iChng|
      invariant p.Valid() && fresh(p) && fresh(p.anEq) && fresh(p.anDLt)
      invariant p.State() == Tallied(iChng[..t], nCol, 0, nLimit)
    {
      assert iChng[..t + 1][..t] == iChng[..t];
      ChangeInRange(rows, iChng, ids, nCol, t);
      var skip := p.StatPush(iChng[t]);
    }
    assert iChng[..|iChng|] == iChng;
    list := p.StatGet();
    Stat1Falls(rows, iChng, ids, nCol, nKeyCol, nEst, 0, nLimit);
  }
}
