/** The sampler over whole scans: after the last row every retained sample carries the counts
    that a second pass over the complete index would give. */
module StatTheorems {
  import opened Arith
  import opened IndexRows
  import opened StatSpec
  import opened StatOrder
  import opened StatInvariant

  /** Between two rows of the scan. */
  ghost predicate Scanning(s: Accum, rows: seq<Row>, ids: seq<Rowid>)
    requires rows != []
  {
    0 < s.nCol && SamplerOk(s, rows, ids, s.nCol - 1) && AllBestOk(s, rows, ids)
  }

  lemma {:induction false} GroupsEnd(s: Accum, rows: seq<Row>, ids: seq<Rowid>, i: int, c: nat)
    requires rows != [] && c < s.nCol && c - 1 <= i < s.nCol - 1
    requires SamplerOk(s, rows, ids, i + 1) && AllBestOk(s, rows, ids)
    requires i >= 0 ==> AtGroupEnd(s, rows, ids, i)
    ensures var t := PushBest(s, i, c);
            SamplerOk(t, rows, ids, c) && PeriodicRows(t.a) == PeriodicRows(s.a)
    decreases i + 1
  {
    hide PushBestAt, Kept, AllBestOk, MinOk, CurrentOk, Sorted;
    if i >= c {
      GroupEnds(s, rows, ids, i);
      PushBestAtWellFormed(s, i);
      GroupsEnd(PushBestAt(s, i), rows, ids, i - 1, c);
    }
  }

  /** Filling in leaves the counts the preference order reads as they are. */
  lemma {:induction false} FillKeepsOrder(nCol: nat, x: Sample, y: Sample, anEq: seq<nat>, c: nat, i: nat)
    requires |x.anEq| == |y.anEq| == |anEq| == nCol
    requires forall j | i <= j < nCol :: x.anEq[j] != 0 && y.anEq[j] != 0
    ensures BetterFrom(FillOne(x, anEq, c), FillOne(y, anEq, c), i) == BetterFrom(x, y, i)
    decreases nCol - i
  {
    if i < nCol {
      FillKeepsOrder(nCol, x, y, anEq, c, i + 1);
    }
  }

  lemma FillKeepsBetter(rows: seq<Row>, ids: seq<Rowid>, nCol: nat, x: Sample, y: Sample, lvl: nat, anEq: seq<nat>,
                        c: nat)
    requires SampleOk(rows, ids, nCol, x, lvl) && SampleOk(rows, ids, nCol, y, lvl)
    requires !x.isPSample && !y.isPSample && |anEq| == nCol
    ensures IsBetter(FillOne(x, anEq, c), FillOne(y, anEq, c)) == IsBetter(x, y)
  {
    if x.iCol == y.iCol {
      FillKeepsOrder(nCol, x, y, anEq, c, x.iCol + 1);
    }
  }

  lemma FillExact(s: Accum, rows: seq<Row>, ids: seq<Rowid>, c: nat, k: nat)
    requires SamplerOk(s, rows, ids, c) && c < s.nCol && k < |s.a|
    ensures var x := FillOne(s.a[k], s.current.anEq, c);
            SampleOk(rows, ids, s.nCol, x, c) && RowOf(x) == RowOf(s.a[k]) &&
            (forall j | c <= j < s.nCol :: x.anEq[j] != 0)
  {
    var x0 := s.a[k];
    var x := FillOne(x0, s.current.anEq, c);
    assert SampleOk(rows, ids, s.nCol, x0, c);
    forall j | 0 <= j < s.nCol ensures EqAt(rows, s.nCol, x, j, c) && (c <= j ==> x.anEq[j] != 0) {
      assert EqAt(rows, s.nCol, x0, j, c);
      if c <= j && x0.anEq[j] == 0 {
        OpenCount(rows, s.nCol, RowOf(x0), j);
      }
    }
  }

  lemma {:induction false} FillKeepsPeriodic(a: seq<Sample>, b: seq<Sample>)
    requires |a| == |b| && forall k | 0 <= k < |a| :: a[k].isPSample == b[k].isPSample && RowOf(a[k]) == RowOf(b[k])
    ensures PeriodicRows(a) == PeriodicRows(b)
  {
    if a != [] {
      FillKeepsPeriodic(a[..|a| - 1], b[..|b| - 1]);
    }
  }

  /** Groups of more than `c` columns have ended, and every count about them is exact. */
  ghost predicate Settled(s: Accum, rows: seq<Row>, ids: seq<Rowid>, c: nat) {
    c < s.nCol && SamplerOk(s, rows, ids, c) &&
    forall k, j | 0 <= k < |s.a| && c <= j < s.nCol :: s.a[k].anEq[j] != 0
  }

  lemma FillMinOk(s: Accum, rows: seq<Row>, ids: seq<Rowid>, c: nat)
    requires SamplerOk(s, rows, ids, c) && c < s.nMaxEqZero
    ensures MinOk(Fill(s, c))
  {
    var t := Fill(s, c);
    if |s.a| == s.mxSample {
      forall k | 0 <= k < |t.a| && !t.a[k].isPSample ensures !IsBetter(t.a[t.iMin], t.a[k]) {
        FillKeepsBetter(rows, ids, s.nCol, s.a[s.iMin], s.a[k], c, s.current.anEq, c);
      }
    }
  }

  lemma FillKept(s: Accum, rows: seq<Row>, ids: seq<Rowid>, c: nat)
    requires SamplerOk(s, rows, ids, c) && c < s.nMaxEqZero
    ensures var t := Fill(s, c);
            Kept(rows, ids, t.nCol, t.a, c, c) && PeriodicRows(t.a) == PeriodicRows(s.a)
  {
    hide MinOk, CurrentOk, Sorted, AllShaped, SampleOk;
    var t := Fill(s, c);
    forall k | 0 <= k < |t.a|
      ensures SampleOk(rows, ids, t.nCol, t.a[k], c) && RowOf(t.a[k]) == RowOf(s.a[k])
      ensures forall j | c <= j < t.nCol :: t.a[k].anEq[j] != 0
    {
      FillExact(s, rows, ids, c, k);
    }
    FillKeepsPeriodic(s.a, t.a);
  }

  lemma FillSettles(s: Accum, rows: seq<Row>, ids: seq<Rowid>, c: nat)
    requires SamplerOk(s, rows, ids, c) && c < s.nCol
    ensures Settled(Fill(s, c), rows, ids, c) && PeriodicRows(Fill(s, c).a) == PeriodicRows(s.a)
  {
    hide SamplesOk, MinOk, CurrentOk, Sorted, SampleOk;
    if c < s.nMaxEqZero {
      FillKept(s, rows, ids, c);
      FillMinOk(s, rows, ids, c);
    }
  }

  lemma PreviousSettled(s: Accum, rows: seq<Row>, ids: seq<Rowid>, c: nat)
    requires rows != [] && Scanning(s, rows, ids) && c < s.nCol
    ensures Settled(PushPrevious(s, c), rows, ids, c)
    ensures PeriodicRows(PushPrevious(s, c).a) == PeriodicRows(s.a)
  {
    hide Kept, MinOk, CurrentOk, Sorted, Settled, Fill, AllBestOk;
    GroupsEnd(s, rows, ids, s.nCol - 2, c);
    FillSettles(PushBest(s, s.nCol - 2, c), rows, ids, c);
  }

  // -------------------- the next row --------------------

  /** An exact sample stays exact, and the groups above column `c` are closed. */
  lemma SampleArrives(s: Accum, rows: seq<Row>, ids: seq<Rowid>, y: Row, id: Rowid, c: nat, k: nat)
    requires Settled(s, rows, ids, c) && LessAt(rows[|rows| - 1], y, c) && k < |s.a|
    ensures SampleOk(rows + [y], ids + [id], s.nCol, s.a[k], s.nCol - 1)
  {
    hide Least, MinOk, CurrentOk;
    var x, all, lvl := s.a[k], rows + [y], s.nCol - 1;
    var r := RowOf(x);
    assert SampleOk(rows, ids, s.nCol, x, c);
    SortedPush(rows, s.nCol, y, c);
    hide CountEq, CountLess, LesserPrefixes, LessAt;
    forall i | 0 <= i < s.nCol
      ensures EqAt(all, s.nCol, x, i, lvl)
      ensures x.anLt[i] == CountLess(all, all[r], i + 1) && x.anDLt[i] == |LesserPrefixes(all, all[r], i + 1)|
    {
      assert EqAt(rows, s.nCol, x, i, c);
      CountsKeep(rows, s.nCol, y, r, i + 1);
      if i >= c {
        CountsNew(rows, s.nCol, y, c, i + 1);
      }
    }
  }

  /** The counts of the row that arrives are exact among the rows so far. */
  lemma CurrentArrives(s: Accum, rows: seq<Row>, ids: seq<Rowid>, y: Row, id: Rowid, c: nat)
    requires Sorted(rows, s.nCol) && rows != [] && Allocated(s) && s.nRow == |rows|
    requires CurrentOk(rows, ids, s.nCol, s.current) && LessAt(rows[|rows| - 1], y, c)
    requires WellFormed(s)
    ensures CurrentOk(rows + [y], ids + [id], s.nCol, Arrive(s, c, id).current)
  {
    var all, x, z := rows + [y], s.current, Arrive(s, c, id).current;
    assert |y| == s.nCol && all[|all| - 1] == y;
    forall i | 0 <= i < s.nCol
      ensures z.anLt[i] == CountLess(all, y, i + 1) && z.anDLt[i] == |LesserPrefixes(all, y, i + 1)|
      ensures z.anEq[i] == CountEq(all, y, i + 1) && z.anLt[i] + z.anEq[i] == |all|
      ensures i == s.nCol - 1 ==> z.anLt[i] == |rows|
    {
      if i < c {
        PrefixGoesOn(rows, s.nCol, y, c, i);
      } else {
        PrefixStarts(rows, s.nCol, y, c, i);
      }
      hide CountEq, CountLess, LesserPrefixes, Sorted;
    }
    hide CountEq, CountLess, LesserPrefixes, Sorted, WellFormed, Allocated, LessAt, Arrive;
  }

  lemma RowsArrive(s: Accum, rows: seq<Row>, ids: seq<Rowid>, y: Row, id: Rowid, c: nat)
    requires Settled(s, rows, ids, c) && LessAt(rows[|rows| - 1], y, c)
    ensures SamplerOk(Arrive(s, c, id), rows + [y], ids + [id], s.nCol - 1)
  {
    SortedPush(rows, s.nCol, y, c);
    CurrentArrives(s, rows, ids, y, id, c);
    forall k | 0 <= k < |s.a| ensures SampleOk(rows + [y], ids + [id], s.nCol, s.a[k], s.nCol - 1) {
      SampleArrives(s, rows, ids, y, id, c, k);
    }
  }

  lemma PeriodicOk(rows: seq<Row>, ids: seq<Rowid>, nCol: nat, current: Sample)
    requires rows != [] && Sorted(rows, nCol) && CurrentOk(rows, ids, nCol, current)
    ensures var x := current.(isPSample := true);
            SampleOk(rows, ids, nCol, ZeroFirst(x, nCol - 1), nCol - 1) && x.anEq[nCol - 1] != 0
  {
    var lvl := nCol - 1;
    var y := ZeroFirst(current.(isPSample := true), lvl);
    assert RowOf(y) == RowOf(current) == |rows| - 1;
    forall i | 0 <= i < nCol ensures EqAt(rows, nCol, y, i, lvl) {
      CountEqSelf(rows, |rows| - 1, i + 1);
    }
    CountEqSelf(rows, |rows| - 1, nCol);
  }

  lemma PeriodicAdded(s: Accum, u: Accum, x: Sample, t: Accum, rows: seq<Row>, ids: seq<Rowid>)
    requires rows != [] && 0 < s.nCol && SamplerOk(s, rows, ids, s.nCol - 1)
    requires forall k | 0 <= k < |s.a| :: RowOf(s.a[k]) < |rows| - 1
    requires |PeriodicRows(s.a)| + 1 < s.mxSample
    requires u == s.(nMaxEqZero := s.nCol - 1) && x == s.current.(isPSample := true)
    requires t == Add(u, x, s.nCol - 1)
    ensures SamplerOk(t, rows, ids, s.nCol - 1) && PeriodicRows(t.a) == PeriodicRows(s.a) + [|rows| - 1]
  {
    hide SamplesOk, NonZeroFrom, Sorted, SampleOk, Least, Add;
    PeriodicOk(rows, ids, s.nCol, s.current);
    KeptLower(rows, ids, s.nCol, s.a, s.nCol - 1, s.nMaxEqZero, s.nCol - 1, u.nMaxEqZero);
    AddKeeps(u, rows, ids, x, s.nCol - 1, s.nCol - 1);
  }

  /** Keeping the current row as a periodic sample. */
  lemma PeriodicKept(s: Accum, rows: seq<Row>, ids: seq<Rowid>)
    requires rows != [] && 0 < s.nCol && SamplerOk(s, rows, ids, s.nCol - 1)
    requires forall k | 0 <= k < |s.a| :: RowOf(s.a[k]) < |rows| - 1
    requires PeriodicFits(s)
    ensures var t := KeepPeriodic(s);
            SamplerOk(t, rows, ids, s.nCol - 1) &&
            t == s.(iMin := t.iMin, nMaxEqZero := t.nMaxEqZero, a := t.a) &&
            PeriodicRows(t.a) == PeriodicRows(s.a) + if PeriodicRow(|rows| - 1, s.nPSample) then [|rows| - 1] else []
  {
    hide Kept, Sorted, MinOk, Add;
    if PeriodicRow(|rows| - 1, s.nPSample) {
      PeriodicAdded(s, s.(nMaxEqZero := s.nCol - 1), s.current.(isPSample := true), KeepPeriodic(s), rows, ids);
    }
    hide SamplerOk;
  }

  /** The row that arrives takes over the candidacy of a group unless the old candidate is
      complete and at least as good. */
  lemma BestArrives(s: Accum, rows: seq<Row>, ids: seq<Rowid>, y: Row, id: Rowid, c: nat, i: nat, b: Sample)
    requires 0 < s.nCol && Sorted(rows, s.nCol) && rows != [] && LessAt(rows[|rows| - 1], y, c)
    requires CurrentOk(rows + [y], ids + [id], s.nCol, s.current) && !s.current.isPSample
    requires i < s.nCol - 1 && |ids| == |rows| && Shaped(b, s.nCol)
    requires i < c ==> BestOk(rows, ids, s.nCol, b, i)
    ensures var x := s.current.(iCol := i);
            BestOk(rows + [y], ids + [id], s.nCol, if i >= c || IsBetterPost(x, b) then x else b, i)
  {
    hide CountLess, LesserPrefixes, CountEq;
    var x := s.current.(iCol := i);
    assert RowOf(x) == RowOf(s.current);
    SortedPush(rows, s.nCol, y, c);
    if i < c && !IsBetterPost(x, b) {
      if Same(rows[RowOf(b)], y, i + 2) {
        OvertakenWhileOpen(rows, ids, s.nCol, y, id, c, i, b, s.current);
      }
      BestStays(rows, ids, s.nCol, y, id, i, b);
    }
  }

  /** While the candidate's group of one more column goes on, the next row has a larger count
      of that group and overtakes the candidate. */
  lemma OvertakenWhileOpen(rows: seq<Row>, ids: seq<Rowid>, nCol: nat, y: Row, id: Rowid, c: nat, i: nat,
                           b: Sample, current: Sample)
    requires Sorted(rows + [y], nCol) && rows != [] && LessAt(rows[|rows| - 1], y, c)
    requires CurrentOk(rows + [y], ids + [id], nCol, current)
    requires i < nCol - 1 && i < c && BestOk(rows, ids, nCol, b, i)
    requires Same(rows[RowOf(b)], y, i + 2)
    ensures IsBetterPost(current.(iCol := i), b)
  {
    hide LesserPrefixes, CountLess;
    var r, n, all := RowOf(b), |rows| - 1, rows + [y];
    Contiguous(all, nCol, r, n, n + 1, i + 2);
    assert all[r] == rows[r] && all[n] == rows[n];
    assert r == n && c > i + 1;
    CountsKeep(rows, nCol, y, n, i + 2);
    CountSame(all, all[n], y, i + 2);
    assert current.anEq[i + 1] == CountEq(all, y, i + 2);
  }

  lemma BestStays(rows: seq<Row>, ids: seq<Rowid>, nCol: nat, y: Row, id: Rowid, i: nat, b: Sample)
    requires Sorted(rows + [y], nCol) && rows != [] && Same(rows[|rows| - 1], y, i + 1) && i < nCol - 1
    requires BestOk(rows, ids, nCol, b, i) && !Same(rows[RowOf(b)], y, i + 2)
    ensures BestOk(rows + [y], ids + [id], nCol, b, i)
  {
    hide CountLess, CountEq;
    var all, r := rows + [y], RowOf(b);
    forall j | 0 <= j < nCol
      ensures b.anLt[j] == CountLess(all, all[r], j + 1) && b.anDLt[j] == |LesserPrefixes(all, all[r], j + 1)|
      ensures j > i ==> b.anEq[j] == CountEq(all, all[r], j + 1)
    {
      CountsKeep(rows, nCol, y, r, j + 1);
    }
  }

  // -------------------- whole scans --------------------

  /** `iChng[t]` is the leftmost column in which row `t` differs from the row before. */
  ghost predicate IsScan(rows: seq<Row>, iChng: seq<nat>, ids: seq<Rowid>, nCol: nat) {
    Sorted(rows, nCol) && |rows| == |iChng| == |ids| && (rows != [] ==> iChng[0] == 0) &&
    forall t | 1 <= t < |rows| :: LessAt(rows[t - 1], rows[t], iChng[t])
  }

  /** The rows below `n` at which `row / nPSample` is about to step. */
  ghost function PeriodicBelow(n: nat, nPSample: nat): seq<nat>
    requires nPSample > 0
  {
    if n == 0 then []
    else PeriodicBelow(n - 1, nPSample) + if PeriodicRow(n - 1, nPSample) then [n - 1] else []
  }

  lemma {:induction false} PeriodicBelowCount(n: nat, nPSample: nat)
    requires nPSample > 0
    ensures |PeriodicBelow(n, nPSample)| == n / nPSample
    ensures forall r | 0 <= r < n && PeriodicRow(r, nPSample) :: r in PeriodicBelow(n, nPSample)
  {
    if n > 0 {
      PeriodicBelowCount(n - 1, nPSample);
      QuotientSteps(n - 1, nPSample);
    } else {
      QuotientIs(0, nPSample, 0, 0);
    }
  }

  /** A scan of no more rows than were estimated keeps at most a third of the sample array for
      periodic samples. */
  lemma PeriodicShare(n: nat, nEst: nat, mxSample: nat)
    requires n <= nEst
    ensures n / SampleInterval(nEst, mxSample) <= mxSample / 3
  {
    var k, p := mxSample / 3 + 1, SampleInterval(nEst, mxSample);
    var q := nEst / k;
    assert nEst == k * q + nEst % k;
    assert p * k == k * q + k;
    QuotientBound(n, p, k);
  }

  /** And once there are enough rows, a scan of as many rows as estimated keeps a third. */
  lemma PeriodicThird(nEst: nat, mxSample: nat)
    requires (mxSample / 3 + 1) * (mxSample / 3) <= nEst
    ensures nEst / SampleInterval(nEst, mxSample) == mxSample / 3
  {
    PeriodicShare(nEst, nEst, mxSample);
    var k, p := mxSample / 3 + 1, SampleInterval(nEst, mxSample);
    var q := nEst / k;
    assert nEst == k * q + nEst % k;
    if q < k - 1 { MulMono(k, q + 1, k - 1); }
    assert p * (k - 1) == k * q - q + k - 1 <= nEst;
    assert nEst == p * (nEst / p) + nEst % p;
    if nEst / p < k - 1 {
      MulMono(p, nEst / p + 1, k - 1);
    }
  }

  /** Fewer of `n` rows are periodic than samples can be kept, so that a full array always has one to evict. */
  predicate HasRoom(n: nat, nEst: nat, mxSample: nat) {
    n / SampleInterval(nEst, mxSample) < mxSample
  }

  lemma RoomBefore(n: nat, nEst: nat, mxSample: nat)
    requires HasRoom(n + 1, nEst, mxSample)
    ensures HasRoom(n, nEst, mxSample)
  {
    QuotientSteps(n, SampleInterval(nEst, mxSample));
  }

  /** There is room for as many rows as were estimated. */
  lemma EstimateLeavesRoom(n: nat, nEst: nat, mxSample: nat)
    requires n <= nEst && 0 < mxSample
    ensures HasRoom(n, nEst, mxSample)
  {
    PeriodicShare(n, nEst, mxSample);
  }

  ghost predicate Running(s: Accum, rows: seq<Row>, ids: seq<Rowid>, nEst: nat, mxSample: nat) {
    rows != [] && s.mxSample == mxSample && s.nPSample == SampleInterval(nEst, mxSample) &&
    Scanning(s, rows, ids) && PeriodicRows(s.a) == PeriodicBelow(|rows|, s.nPSample)
  }

  /** The accumulator before row `y` arrives, which differs from the last row first in column `c`. */
  ghost predicate Ready(s: Accum, rows: seq<Row>, ids: seq<Rowid>, y: Row, c: nat, nEst: nat, mxSample: nat) {
    if rows == [] then
      ids == [] && c == 0 && |y| == s.nCol && 0 < s.nKeyCol <= s.nCol && 0 < mxSample &&
      s == Init(s.nCol, s.nKeyCol, nEst, mxSample, s.iPrn)
    else Running(s, rows, ids, nEst, mxSample) && LessAt(rows[|rows| - 1], y, c)
  }

  /** The accumulator when the counts of row `y` are known. */
  ghost predicate Arrived(s: Accum, t: Accum, rows: seq<Row>, ids: seq<Rowid>, y: Row, id: Rowid) {
    0 < s.nCol && SamplerOk(t, rows + [y], ids + [id], s.nCol - 1) &&
    t.nCol == s.nCol && t.nKeyCol == s.nKeyCol && t.nPSample == s.nPSample && t.mxSample == s.mxSample &&
    PeriodicRows(t.a) == PeriodicRows(s.a) &&
    (forall k | 0 <= k < |t.a| :: RowOf(t.a[k]) < |rows|)
  }

  lemma FirstArrives(s: Accum, y: Row, id: Rowid, nEst: nat, mxSample: nat)
    requires Ready(s, [], [], y, 0, nEst, mxSample)
    ensures Arrived(s, Arrive(s, 0, id), [], [], y, id)
  {
    var t := Arrive(s, 0, id);
    assert [] + [y] == [y] && [] + [id] == [id];
    OneRow(y);
    hide CountEq, CountLess, LesserPrefixes;
    FirstCurrent(s.nCol, t.current, y, id);
    hide CurrentOk;
  }

  lemma OneRow(y: Row)
    ensures forall k: nat :: CountLess([y], y, k) == 0 && LesserPrefixes([y], y, k) == {}
    ensures forall k: nat | k <= |y| :: CountEq([y], y, k) == 1
    ensures Sorted([y], |y|)
  {
    assert [] + [y] == [y];
    forall k: nat ensures CountLess([y], y, k) == 0 && LesserPrefixes([y], y, k) == {}
      ensures k <= |y| ==> CountEq([y], y, k) == 1
    {
      CountPush([], y, y, k);
    }
  }

  lemma FirstCurrent(nCol: nat, x: Sample, y: Row, id: Rowid)
    requires 0 < nCol == |y| && Shaped(x, nCol) && x.rowid == id
    requires forall i | 0 <= i < nCol :: x.anEq[i] == 1 && x.anLt[i] == x.anDLt[i] == 0
    ensures CurrentOk([y], [id], nCol, x)
  {
    OneRow(y);
    hide CountEq, CountLess, LesserPrefixes;
    assert RowOf(x) == 0 && [y][0] == y;
  }

  lemma NextArrives(s: Accum, rows: seq<Row>, ids: seq<Rowid>, y: Row, id: Rowid, c: nat, nEst: nat, mxSample: nat)
    requires rows != [] && Ready(s, rows, ids, y, c, nEst, mxSample)
    ensures Arrived(s, Arrive(PushPrevious(s, c), c, id), rows, ids, y, id)
  {
    assert c < s.nCol;
    var u := PushPrevious(s, c);
    PreviousSettled(s, rows, ids, c);
    hide *;
    SettledArrives(s, u, rows, ids, y, id, c);
  }

  lemma SettledArrives(s: Accum, u: Accum, rows: seq<Row>, ids: seq<Rowid>, y: Row, id: Rowid, c: nat)
    requires Settled(u, rows, ids, c) && LessAt(rows[|rows| - 1], y, c)
    requires u == s.(aBest := u.aBest, iMin := u.iMin, nMaxEqZero := u.nMaxEqZero, a := u.a)
    requires PeriodicRows(u.a) == PeriodicRows(s.a)
    ensures Arrived(s, Arrive(u, c, id), rows, ids, y, id)
  {
    SamplesInRange(u, rows, ids, c);
    RowsArrive(u, rows, ids, y, id, c);
    hide SamplerOk;
  }

  lemma SamplesInRange(s: Accum, rows: seq<Row>, ids: seq<Rowid>, lvl: nat)
    requires SamplerOk(s, rows, ids, lvl)
    ensures forall k | 0 <= k < |s.a| :: RowOf(s.a[k]) < |rows|
  {
    forall k | 0 <= k < |s.a| ensures RowOf(s.a[k]) < |rows| {
      assert SampleOk(rows, ids, s.nCol, s.a[k], lvl);
    }
  }

  lemma BestUpdated(t: Accum, rows: seq<Row>, ids: seq<Rowid>, y: Row, id: Rowid, c: nat)
    requires Allocated(t) && t.nCol == |y| && |ids| == |rows|
    requires CurrentOk(rows + [y], ids + [id], t.nCol, t.current)
    requires if rows == [] then c == 0
             else Sorted(rows, t.nCol) && LessAt(rows[|rows| - 1], y, c)
    requires forall i | 0 <= i < c && i < t.nCol - 1 :: BestOk(rows, ids, t.nCol, t.aBest[i], i)
    ensures AllBestOk(UpdateBest(t, c), rows + [y], ids + [id])
  {
    var u := UpdateBest(t, c);
    forall i | 0 <= i < u.nCol - 1 ensures BestOk(rows + [y], ids + [id], u.nCol, u.aBest[i], i) {
      if rows == [] {
        assert RowOf(u.aBest[i]) == RowOf(t.current) == 0 && (rows + [y])[0] == y;
        assert u.aBest[i] == t.current.(iCol := i);
      } else {
        BestArrives(t, rows, ids, y, id, c, i, t.aBest[i]);
      }
    }
  }

  lemma {:induction false} CandidatesAboveOnly(s: Accum, i: int, c: nat, j: nat)
    requires WellFormed(s) && i < s.nCol && j < c && j < s.nCol
    ensures PushBest(s, i, c).aBest[j] == s.aBest[j]
    decreases i + 1
  {
    hide PushBestAt;
    if i >= c {
      PushBestAtWellFormed(s, i);
      CandidatesAboveOnly(PushBestAt(s, i), i - 1, c, j);
    }
  }

  lemma RoomForPeriodic(t: Accum, rows: seq<Row>, ids: seq<Rowid>, nEst: nat)
    requires rows != [] && 0 < t.nCol && SamplerOk(t, rows, ids, t.nCol - 1) && HasRoom(|rows|, nEst, t.mxSample)
    requires t.nPSample == SampleInterval(nEst, t.mxSample)
    requires PeriodicRows(t.a) == PeriodicBelow(|rows| - 1, t.nPSample)
    ensures PeriodicFits(t)
    ensures PeriodicRow(|rows| - 1, t.nPSample) ==>
              PeriodicBelow(|rows|, t.nPSample) == PeriodicRows(t.a) + [|rows| - 1]
  {
    var n := |rows| - 1;
    assert t.current.anLt[t.nCol - 1] == n;
    hide SamplesOk, CurrentOk, Least, Sorted;
    PeriodicBelowCount(n, t.nPSample);
    QuotientSteps(n, t.nPSample);
  }

  lemma BestFinished(k: Accum, rows: seq<Row>, ids: seq<Rowid>, y: Row, id: Rowid, c: nat, nEst: nat)
    requires 0 < k.nCol && SamplerOk(k, rows + [y], ids + [id], k.nCol - 1)
    requires |ids| == |rows| && |y| == k.nCol && k.nPSample == SampleInterval(nEst, k.mxSample)
    requires PeriodicRows(k.a) == PeriodicBelow(|rows| + 1, k.nPSample)
    requires if rows == [] then c == 0 else Sorted(rows, k.nCol) && LessAt(rows[|rows| - 1], y, c)
    requires forall i | 0 <= i < c && i < k.nCol - 1 :: BestOk(rows, ids, k.nCol, k.aBest[i], i)
    ensures var u := UpdateBest(k, c);
            Running(u, rows + [y], ids + [id], nEst, k.mxSample) && u.nCol == k.nCol && u.nKeyCol == k.nKeyCol
  {
    hide Kept, Least, MinOk, BestOk, LessAt;
    BestUpdated(k, rows, ids, y, id, c);
    UpdateKeeps(k, UpdateBest(k, c), c, rows + [y], ids + [id]);
    hide SamplerOk, AllBestOk, BestOk, Sorted;
  }

  /** What is left to do for a row whose counts are known. */
  lemma ArrivedPushed(t: Accum, rows: seq<Row>, ids: seq<Rowid>, y: Row, id: Rowid, c: nat, nEst: nat)
    requires WellFormed(t) && 0 < t.nCol && SamplerOk(t, rows + [y], ids + [id], t.nCol - 1)
    requires forall k | 0 <= k < |t.a| :: RowOf(t.a[k]) < |rows|
    requires |ids| == |rows| && HasRoom(|rows| + 1, nEst, t.mxSample) && t.nPSample == SampleInterval(nEst, t.mxSample)
    requires PeriodicRows(t.a) == PeriodicBelow(|rows|, t.nPSample)
    requires |y| == t.nCol
    requires if rows == [] then c == 0 else Sorted(rows, t.nCol) && LessAt(rows[|rows| - 1], y, c)
    requires forall i | 0 <= i < c && i < t.nCol - 1 :: BestOk(rows, ids, t.nCol, t.aBest[i], i)
    ensures var u := UpdateBest(KeepPeriodic(t), c);
            Running(u, rows + [y], ids + [id], nEst, t.mxSample) && u.nCol == t.nCol && u.nKeyCol == t.nKeyCol
  {
    hide WellFormed, SamplerOk, BestOk, Sorted, KeepPeriodic, UpdateBest, PeriodicFits;
    RoomForPeriodic(t, rows + [y], ids + [id], nEst);
    PeriodicKept(t, rows + [y], ids + [id]);
    BestFinished(KeepPeriodic(t), rows, ids, y, id, c, nEst);
  }

  lemma UpdateKeeps(k: Accum, u: Accum, c: nat, rows: seq<Row>, ids: seq<Rowid>)
    requires rows != [] && 0 < k.nCol && SamplerOk(k, rows, ids, k.nCol - 1)
    requires u == UpdateBest(k, c)
    ensures SamplerOk(u, rows, ids, u.nCol - 1) && u == k.(aBest := u.aBest)
  {
    hide Kept, CurrentOk, Sorted, Least;
  }

  /** One row keeps the invariant, and keeps every periodic row. */
  lemma RowPushed(s: Accum, rows: seq<Row>, ids: seq<Rowid>, y: Row, id: Rowid, c: nat, nEst: nat, mxSample: nat)
    requires Ready(s, rows, ids, y, c, nEst, mxSample) && HasRoom(|rows| + 1, nEst, mxSample)
    ensures Running(PushRow(s, c, id), rows + [y], ids + [id], nEst, mxSample)
    ensures PushRow(s, c, id).nCol == s.nCol && PushRow(s, c, id).nKeyCol == s.nKeyCol
  {
    if rows == [] {
      FirstArrives(s, y, id, nEst, mxSample);
      ArrivedPushed(Arrive(s, c, id), rows, ids, y, id, c, nEst);
    } else {
      NextPushed(s, rows, ids, y, id, c, nEst, mxSample);
    }
  }

  lemma CandidatesBelow(s: Accum, rows: seq<Row>, ids: seq<Rowid>, c: nat)
    requires WellFormed(s) && AllBestOk(s, rows, ids)
    ensures forall i | 0 <= i < c && i < s.nCol - 1 :: BestOk(rows, ids, s.nCol, PushPrevious(s, c).aBest[i], i)
  {
    hide BestOk, PushPrevious;
    forall i | 0 <= i < c && i < s.nCol - 1
      ensures BestOk(rows, ids, s.nCol, PushPrevious(s, c).aBest[i], i)
    {
      CandidateBelow(s, c, i);
    }
  }

  lemma CandidateBelow(s: Accum, c: nat, i: nat)
    requires WellFormed(s) && i < c && i < s.nCol - 1
    ensures PushPrevious(s, c).aBest[i] == s.aBest[i]
  {
    hide PushBest;
    CandidatesAboveOnly(s, s.nCol - 2, c, i);
  }

  lemma NextPushed(s: Accum, rows: seq<Row>, ids: seq<Rowid>, y: Row, id: Rowid, c: nat, nEst: nat, mxSample: nat)
    requires rows != [] && Ready(s, rows, ids, y, c, nEst, mxSample) && HasRoom(|rows| + 1, nEst, mxSample)
    ensures Running(PushRow(s, c, id), rows + [y], ids + [id], nEst, mxSample)
    ensures PushRow(s, c, id).nCol == s.nCol && PushRow(s, c, id).nKeyCol == s.nKeyCol
  {
    NextArrives(s, rows, ids, y, id, c, nEst, mxSample);
    CandidatesBelow(s, rows, ids, c);
    assert s.nRow == |rows| && |y| == s.nCol && |ids| == |rows| && Sorted(rows, s.nCol);
    var t := Arrive(PushPrevious(s, c), c, id);
    assert t.aBest == PushPrevious(s, c).aBest;
    hide Kept, CurrentOk, BestOk, KeepPeriodic, MinOk, UpdateBest, AllBestOk, PushPrevious, Sorted, Arrive;
    ArrivedPushed(t, rows, ids, y, id, c, nEst);
  }

  lemma ScanTake(rows: seq<Row>, iChng: seq<nat>, ids: seq<Rowid>, nCol: nat, n: nat)
    requires IsScan(rows, iChng, ids, nCol) && n <= |rows|
    ensures IsScan(rows[..n], iChng[..n], ids[..n], nCol)
  {
    SortedTake(rows, nCol, n);
  }

  lemma ChangeInRange(rows: seq<Row>, iChng: seq<nat>, ids: seq<Rowid>, nCol: nat, t: nat)
    requires 0 < nCol && IsScan(rows, iChng, ids, nCol) && t < |rows|
    ensures |iChng| == |ids| == |rows| && iChng[t] < nCol
  {
    assert t > 0 ==> LessAt(rows[t - 1], rows[t], iChng[t]);
  }

  /** The accumulator after a scan. */
  ghost function Run(rows: seq<Row>, iChng: seq<nat>, ids: seq<Rowid>,
                     nCol: nat, nKeyCol: nat, nEst: nat, mxSample: nat, seed: nat): (s: Accum)
    requires 0 < nKeyCol <= nCol && 0 < mxSample && IsScan(rows, iChng, ids, nCol) && HasRoom(|rows|, nEst, mxSample)
    ensures s.nCol == nCol && s.nKeyCol == nKeyCol
    ensures if rows == [] then s == Init(nCol, nKeyCol, nEst, mxSample, seed)
            else Running(s, rows, ids, nEst, mxSample)
  {
    if rows == [] then Init(nCol, nKeyCol, nEst, mxSample, seed)
    else
      var n := |rows| - 1;
      ScanTake(rows, iChng, ids, nCol, n);
      RoomBefore(n, nEst, mxSample);
      var s := Run(rows[..n], iChng[..n], ids[..n], nCol, nKeyCol, nEst, mxSample, seed);
      RunPushed(s, rows, iChng, ids, nCol, nEst, mxSample, n);
      PushRow(s, iChng[n], ids[n])
  }

  lemma RunPushed(s: Accum, rows: seq<Row>, iChng: seq<nat>, ids: seq<Rowid>, nCol: nat, nEst: nat, mxSample: nat,
                  n: nat)
    requires IsScan(rows, iChng, ids, nCol) && rows != [] && HasRoom(|rows|, nEst, mxSample) && n == |rows| - 1
    requires s.nCol == nCol && 0 < s.nKeyCol <= nCol && 0 < mxSample
    requires if n == 0 then s == Init(nCol, s.nKeyCol, nEst, mxSample, s.iPrn)
             else Running(s, rows[..n], ids[..n], nEst, mxSample)
    ensures WellFormed(s)
    ensures var t := PushRow(s, iChng[n], ids[n]);
            Running(t, rows, ids, nEst, mxSample) && t.nCol == nCol && t.nKeyCol == s.nKeyCol
  {
    hide WellFormed, Allocated, CurrentOk, Kept, MinOk, BestOk, AllBestOk, PeriodicBelow, HasRoom;
    assert rows == rows[..n] + [rows[n]] && ids == ids[..n] + [ids[n]];
    if n == 0 {
      assert rows[..n] == [] && ids[..n] == [];
      assert WellFormed(s);
    } else {
      assert rows[..n][n - 1] == rows[n - 1];
      assert WellFormed(s);
    }
    RowPushed(s, rows[..n], ids[..n], rows[n], ids[n], iChng[n], nEst, mxSample);
    hide Running, PushRow;
  }

  lemma RunLonger(rows: seq<Row>, iChng: seq<nat>, ids: seq<Rowid>, nCol: nat, nKeyCol: nat, nEst: nat, mxSample: nat,
                  seed: nat)
    requires 0 < nKeyCol <= nCol && 0 < mxSample && IsScan(rows, iChng, ids, nCol) &&
             HasRoom(|rows|, nEst, mxSample) && rows != []
    ensures var n := |rows| - 1;
            IsScan(rows[..n], iChng[..n], ids[..n], nCol) && HasRoom(n, nEst, mxSample) &&
            var s := Run(rows[..n], iChng[..n], ids[..n], nCol, nKeyCol, nEst, mxSample, seed);
            WellFormed(s) && Run(rows, iChng, ids, nCol, nKeyCol, nEst, mxSample, seed) == PushRow(s, iChng[n], ids[n])
  {
    var n := |rows| - 1;
    ScanTake(rows, iChng, ids, nCol, n);
    RoomBefore(n, nEst, mxSample);
    var s := Run(rows[..n], iChng[..n], ids[..n], nCol, nKeyCol, nEst, mxSample, seed);
    RunPushed(s, rows, iChng, ids, nCol, nEst, mxSample, n);
    hide PushRow, Running, WellFormed, IsScan, HasRoom;
  }

  // -------------------- what ANALYZE stores --------------------

  /** `x` is a row of the index, and its counts are those of a second pass over the whole index. */
  ghost predicate Exact(rows: seq<Row>, ids: seq<Rowid>, nCol: nat, x: Sample) {
    Shaped(x, nCol) && |ids| == |rows| && RowOf(x) < |rows| && x.rowid == ids[RowOf(x)] &&
    forall i | 0 <= i < nCol ::
      x.anEq[i] == CountEq(rows, rows[RowOf(x)], i + 1) &&
      x.anLt[i] == CountLess(rows, rows[RowOf(x)], i + 1) &&
      x.anDLt[i] == |LesserPrefixes(rows, rows[RowOf(x)], i + 1)|
  }

  /** The main theorem. After the last row and the closing `samplePushPrevious(p, 0)`, all retained
      samples are exact and in index order, there are at most `mxSample` of them, and no periodic row
      has been lost. */
  lemma SamplesExact(rows: seq<Row>, iChng: seq<nat>, ids: seq<Rowid>,
                     nCol: nat, nKeyCol: nat, nEst: nat, mxSample: nat, seed: nat)
    requires 0 < nKeyCol <= nCol && 0 < mxSample && IsScan(rows, iChng, ids, nCol) && rows != [] &&
             HasRoom(|rows|, nEst, mxSample)
    ensures var t := PushPrevious(Run(rows, iChng, ids, nCol, nKeyCol, nEst, mxSample, seed), 0);
            |t.a| <= mxSample && Increasing(t.a) &&
            (forall k | 0 <= k < |t.a| :: Exact(rows, ids, nCol, t.a[k])) &&
            PeriodicRows(t.a) == PeriodicBelow(|rows|, SampleInterval(nEst, mxSample))
  {
    var s := Run(rows, iChng, ids, nCol, nKeyCol, nEst, mxSample, seed);
    ScanEnds(s, PushPrevious(s, 0), rows, ids, nEst, mxSample);
  }

  lemma ScanEnds(s: Accum, t: Accum, rows: seq<Row>, ids: seq<Rowid>, nEst: nat, mxSample: nat)
    requires Running(s, rows, ids, nEst, mxSample) && t == PushPrevious(s, 0)
    ensures |t.a| <= mxSample && Increasing(t.a) && t.nCol == s.nCol
    ensures forall k | 0 <= k < |t.a| :: Exact(rows, ids, s.nCol, t.a[k])
    ensures PeriodicRows(t.a) == PeriodicBelow(|rows|, s.nPSample)
  {
    hide SamplesOk, CurrentOk, Least, Sorted, AllBestOk;
    PreviousSettled(s, rows, ids, 0);
    SettledExact(t, rows, ids);
    hide PushPrevious, SamplerOk;
  }

  lemma SettledExact(t: Accum, rows: seq<Row>, ids: seq<Rowid>)
    requires Settled(t, rows, ids, 0)
    ensures Increasing(t.a) && forall k | 0 <= k < |t.a| :: Exact(rows, ids, t.nCol, t.a[k])
  {
    forall k | 0 <= k < |t.a| ensures Exact(rows, ids, t.nCol, t.a[k]) {
      assert SampleOk(rows, ids, t.nCol, t.a[k], 0);
      forall i | 0 <= i < t.nCol ensures t.a[k].anEq[i] == CountEq(rows, rows[RowOf(t.a[k])], i + 1) {
        assert EqAt(rows, t.nCol, t.a[k], i, 0);
      }
    }
  }

  /** During the scan the samples stay in index order and within the array, and the one that would be evicted next
      is a least preferred one that is not periodic. */
  lemma RunningSamples(rows: seq<Row>, iChng: seq<nat>, ids: seq<Rowid>,
                       nCol: nat, nKeyCol: nat, nEst: nat, mxSample: nat, seed: nat)
    requires 0 < nKeyCol <= nCol && 0 < mxSample && IsScan(rows, iChng, ids, nCol) && rows != [] &&
             HasRoom(|rows|, nEst, mxSample)
    ensures var s := Run(rows, iChng, ids, nCol, nKeyCol, nEst, mxSample, seed);
            Exact(rows, ids, nCol, s.current) && RowOf(s.current) == |rows| - 1 &&
            |s.a| <= mxSample && Increasing(s.a) &&
            (|s.a| == mxSample ==> Least(nCol, s.a, |s.a|, s.iMin))
  {
  }

  /** A row that was kept is in the array. */
  lemma {:induction false} PeriodicRowIn(a: seq<Sample>, r: nat) returns (k: nat)
    requires r in PeriodicRows(a)
    ensures k < |a| && RowOf(a[k]) == r && a[k].isPSample
  {
    var n := |a| - 1;
    if a[n].isPSample && RowOf(a[n]) == r {
      k := n;
    } else {
      k := PeriodicRowIn(a[..n], r);
    }
  }

  lemma RoomSooner(m: nat, n: nat, nEst: nat, mxSample: nat)
    requires m <= n && HasRoom(n, nEst, mxSample)
    ensures HasRoom(m, nEst, mxSample)
    decreases n
  {
    if m < n {
      RoomBefore(n - 1, nEst, mxSample);
      RoomSooner(m, n - 1, nEst, mxSample);
    }
  }
}
