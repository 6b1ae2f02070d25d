/** How much room the periodic samples need: the scan, with the assertion that a full array has a sample to evict. */
module StatRoom {
  import opened Arith
  import opened IndexRows
  import opened StatSpec
  import opened Wrappers
  import opened StatInvariant
  import opened StatTheorems

  /** What the search for `iMin` asserts. */
  predicate HasVictim(s: Accum) {
    |s.a| < s.mxSample || s.iMin >= 0
  }

  /** A row has arrived; if it is due, it is not yet kept. */
  function Arrival(s: Accum, c: nat, id: Rowid): (t: Accum)
    requires WellFormed(s)
    ensures WellFormed(t)
  {
    Arrive(if s.nRow == 0 then s else PushPrevious(s, c), c, id)
  }

  /** The accumulator after the scan of any rows, or nothing from the first row on at which the assertion fails. */
  ghost function Checked(iChng: seq<nat>, ids: seq<Rowid>,
                         nCol: nat, nKeyCol: nat, nEst: nat, mxSample: nat, seed: nat): (s: Option<Accum>)
    requires 0 < nKeyCol <= nCol && 0 < mxSample && |iChng| == |ids|
    ensures s.Some? ==> WellFormed(s.value)
  {
    if ids == [] then Some(Init(nCol, nKeyCol, nEst, mxSample, seed))
    else
      var n := |ids| - 1;
      match Checked(iChng[..n], ids[..n], nCol, nKeyCol, nEst, mxSample, seed)
      case None => None
      case Some(s) =>
        var k := KeepPeriodic(Arrival(s, iChng[n], ids[n]));
        KeptWellFormed(Arrival(s, iChng[n], ids[n]), iChng[n]);
        if HasVictim(k) then Some(UpdateBest(k, iChng[n])) else None
  }

  lemma KeptWellFormed(t: Accum, c: nat)
    requires WellFormed(t)
    ensures var k := KeepPeriodic(t); HasVictim(k) ==> WellFormed(UpdateBest(k, c))
  {
    var k := KeepPeriodic(t);
    if PeriodicRow(t.current.anLt[t.nCol - 1], t.nPSample) {
      KeepsDue(t);
      hide *;
      AddedWellFormed(Zeroed(t), t.current.(isPSample := true), t.nCol - 1);
    }
    if HasVictim(k) {
      BestWellFormed(k, c);
    }
  }

  lemma AddedWellFormed(s: Accum, x: Sample, n: nat)
    requires WellFormed(s) && Shaped(x, s.nCol)
    ensures HasVictim(Add(s, x, n)) ==> WellFormed(Add(s, x, n))
  {
    AddIs(s, x, n);
    hide Evict, ZeroFirst, IsBetter;
  }

  lemma BestWellFormed(k: Accum, c: nat)
    requires WellFormed(k)
    ensures WellFormed(UpdateBest(k, c))
  {
    hide IsBetterPost;
  }

  lemma {:induction false} AllArePeriodic(a: seq<Sample>)
    requires |PeriodicRows(a)| == |a|
    ensures forall k | 0 <= k < |a| :: a[k].isPSample
  {
    if a != [] {
      AllArePeriodic(a[..|a| - 1]);
    }
  }

  /** Before the periodic sample is added. */
  function Zeroed(t: Accum): Accum
    requires WellFormed(t)
  {
    t.(nMaxEqZero := if t.nCol - 1 > t.nMaxEqZero then t.nCol - 1 else t.nMaxEqZero)
  }

  lemma KeepsDue(t: Accum)
    requires WellFormed(t) && PeriodicRow(t.current.anLt[t.nCol - 1], t.nPSample)
    ensures var s, x := Zeroed(t), t.current.(isPSample := true);
            WellFormed(s) && Shaped(x, s.nCol) && s.a == t.a && s.mxSample == t.mxSample &&
            KeepPeriodic(t) == Add(s, x, t.nCol - 1)
  {
    hide Add, PeriodicRow;
  }

  lemma DueRoom(n: nat, nEst: nat, mxSample: nat)
    requires PeriodicRow(n, SampleInterval(nEst, mxSample)) && HasRoom(n, nEst, mxSample)
    ensures var k := n / SampleInterval(nEst, mxSample);
            k < mxSample && (HasRoom(n + 1, nEst, mxSample) <==> k + 1 < mxSample)
  {
    QuotientSteps(n, SampleInterval(nEst, mxSample));
  }

  /** Adding a periodic sample leaves one to evict unless all are periodic. */
  lemma AddedOrFull(s: Accum, x: Sample, n: nat)
    requires WellFormed(s) && Shaped(x, s.nCol) && x.isPSample && |PeriodicRows(s.a)| < s.mxSample
    ensures var u := Add(s, x, n); |PeriodicRows(s.a)| + 1 < s.mxSample <==> |u.a| < u.mxSample || u.iMin >= 0
  {
    var y := ZeroFirst(x, n);
    EvictKeepsPeriodic(s);
    PeriodicRowsConcat(Evict(s), [y]);
    assert PeriodicRows([y]) == [RowOf(y)] by { assert [y][..0] == []; }
    hide Evict, ZeroFirst, PeriodicRows;
    var u := Add(s, x, n);
    if |PeriodicRows(s.a)| + 1 < s.mxSample {
      AddWellFormed(s, x, n);
    } else {
      AllArePeriodic(u.a);
    }
  }

  /** When a row that is due arrives, the array is full afterwards without a sample to evict exactly when there is no
      room. */
  lemma DueNeedsRoom(t: Accum, n: nat, nEst: nat)
    requires WellFormed(t) && t.nPSample == SampleInterval(nEst, t.mxSample) && n == t.current.anLt[t.nCol - 1]
    requires PeriodicRow(n, t.nPSample) && HasRoom(n, nEst, t.mxSample)
    requires PeriodicRows(t.a) == PeriodicBelow(n, t.nPSample)
    ensures HasRoom(n + 1, nEst, t.mxSample) <==> HasVictim(KeepPeriodic(t))
  {
    KeepsDue(t);
    hide *;
    PeriodicBelowCount(n, t.nPSample);
    DueRoom(n, nEst, t.mxSample);
    AddedOrFull(Zeroed(t), t.current.(isPSample := true), t.nCol - 1);
  }

  /** The same for every row that arrives. */
  lemma RowNeedsRoom(t: Accum, n: nat, nEst: nat)
    requires WellFormed(t) && t.nPSample == SampleInterval(nEst, t.mxSample) && n == t.current.anLt[t.nCol - 1]
    requires HasRoom(n, nEst, t.mxSample) && PeriodicRows(t.a) == PeriodicBelow(n, t.nPSample)
    ensures HasRoom(n + 1, nEst, t.mxSample) <==> HasVictim(KeepPeriodic(t))
  {
    if PeriodicRow(n, t.nPSample) {
      DueNeedsRoom(t, n, nEst);
    }
    hide Allocated, Insert, PeriodicRows, PeriodicBelow;
  }

  /** The row that arrives in a scan. */
  lemma ArrivalIs(s: Accum, rows: seq<Row>, ids: seq<Rowid>, y: Row, id: Rowid, c: nat, nEst: nat, mxSample: nat)
    requires Ready(s, rows, ids, y, c, nEst, mxSample)
    ensures WellFormed(s) && Arrived(s, Arrival(s, c, id), rows, ids, y, id)
    ensures var t := Arrival(s, c, id);
            t.mxSample == mxSample && t.nPSample == SampleInterval(nEst, mxSample) &&
            PeriodicRows(t.a) == PeriodicBelow(|rows|, t.nPSample)
  {
    if rows == [] {
      FirstArrives(s, y, id, nEst, mxSample);
    } else {
      NextArrives(s, rows, ids, y, id, c, nEst, mxSample);
    }
    hide Arrive, PushPrevious, Arrived, Sorted, LessAt;
  }

  lemma RowOfCurrent(t: Accum, rows: seq<Row>, ids: seq<Rowid>)
    requires 0 < t.nCol && SamplerOk(t, rows, ids, t.nCol - 1)
    ensures t.current.anLt[t.nCol - 1] == |rows| - 1
  {
  }

  lemma RowChecked(s: Accum, rows: seq<Row>, ids: seq<Rowid>, y: Row, id: Rowid, c: nat, nEst: nat, mxSample: nat)
    requires Ready(s, rows, ids, y, c, nEst, mxSample) && HasRoom(|rows|, nEst, mxSample)
    ensures WellFormed(s)
    ensures HasRoom(|rows| + 1, nEst, mxSample) <==> HasVictim(KeepPeriodic(Arrival(s, c, id)))
  {
    ArrivalIs(s, rows, ids, y, id, c, nEst, mxSample);
    var t := Arrival(s, c, id);
    hide Ready, Arrival, SamplerOk, KeepPeriodic, PeriodicRows, PeriodicBelow, HasRoom, HasVictim;
    RowOfCurrent(t, rows + [y], ids + [id]);
    RowNeedsRoom(t, |rows|, nEst);
  }

  /** The last row of a scan, and the accumulator before it. */
  lemma LastRow(s: Accum, rows: seq<Row>, iChng: seq<nat>, ids: seq<Rowid>, nCol: nat, nEst: nat, mxSample: nat, n: nat)
    requires IsScan(rows, iChng, ids, nCol) && rows != [] && n == |rows| - 1
    requires s.nCol == nCol && 0 < s.nKeyCol <= nCol && 0 < mxSample
    requires if n == 0 then s == Init(nCol, s.nKeyCol, nEst, mxSample, s.iPrn)
             else Running(s, rows[..n], ids[..n], nEst, mxSample)
    ensures Ready(s, rows[..n], ids[..n], rows[n], iChng[n], nEst, mxSample)
  {
    hide Init, Before;
    if n == 0 {
      assert rows[..n] == [] && ids[..n] == [];
    } else {
      assert rows[..n][n - 1] == rows[n - 1];
      hide Running, LessAt;
    }
  }

  /** The exact condition, for all scans: the assertion holds at every row if and only if fewer rows are periodic than
      samples can be kept; and then the scan is the one that the theorems about samples are about. */
  lemma {:induction false} RoomIsExact(rows: seq<Row>, iChng: seq<nat>, ids: seq<Rowid>,
                                       nCol: nat, nKeyCol: nat, nEst: nat, mxSample: nat, seed: nat)
    requires 0 < nKeyCol <= nCol && 0 < mxSample && IsScan(rows, iChng, ids, nCol)
    ensures var s := Checked(iChng, ids, nCol, nKeyCol, nEst, mxSample, seed);
            (s.Some? <==> HasRoom(|rows|, nEst, mxSample)) &&
            (s.Some? ==> s.value == Run(rows, iChng, ids, nCol, nKeyCol, nEst, mxSample, seed))
  {
    if rows == [] {
      QuotientIs(0, SampleInterval(nEst, mxSample), 0, 0);
    } else {
      var n := |rows| - 1;
      ScanTake(rows, iChng, ids, nCol, n);
      RoomIsExact(rows[..n], iChng[..n], ids[..n], nCol, nKeyCol, nEst, mxSample, seed);
      CheckedLonger(iChng, ids, nCol, nKeyCol, nEst, mxSample, seed);
      hide *;
      if HasRoom(n, nEst, mxSample) {
        LastChecked(rows, iChng, ids, nCol, nKeyCol, nEst, mxSample, seed);
      } else {
        LaterHasNone(n, nEst, mxSample);
      }
    }
  }

  lemma CheckedLonger(iChng: seq<nat>, ids: seq<Rowid>,
                      nCol: nat, nKeyCol: nat, nEst: nat, mxSample: nat, seed: nat)
    requires 0 < nKeyCol <= nCol && 0 < mxSample && |iChng| == |ids| && ids != []
    ensures var n := |ids| - 1;
            var r, s := Checked(iChng[..n], ids[..n], nCol, nKeyCol, nEst, mxSample, seed),
                        Checked(iChng, ids, nCol, nKeyCol, nEst, mxSample, seed);
            (r.None? ==> s.None?) &&
            (r.Some? ==>
               (s.Some? <==> HasVictim(KeepPeriodic(Arrival(r.value, iChng[n], ids[n])))) &&
               (s.Some? ==> s.value == UpdateBest(KeepPeriodic(Arrival(r.value, iChng[n], ids[n])), iChng[n])))
  {
    hide HasVictim, KeepPeriodic, Arrival, UpdateBest, WellFormed, Init;
  }

  /** The last row, after a scan that had room. */
  lemma LastChecked(rows: seq<Row>, iChng: seq<nat>, ids: seq<Rowid>,
                    nCol: nat, nKeyCol: nat, nEst: nat, mxSample: nat, seed: nat)
    requires 0 < nKeyCol <= nCol && 0 < mxSample && IsScan(rows, iChng, ids, nCol) && rows != []
    requires |ids| == |iChng| == |rows| && IsScan(rows[..|rows| - 1], iChng[..|rows| - 1], ids[..|rows| - 1], nCol)
    requires HasRoom(|rows| - 1, nEst, mxSample)
    ensures var n := |rows| - 1;
            var s := Run(rows[..n], iChng[..n], ids[..n], nCol, nKeyCol, nEst, mxSample, seed);
            WellFormed(s) &&
            var k := KeepPeriodic(Arrival(s, iChng[n], ids[n]));
            (HasRoom(|rows|, nEst, mxSample) <==> HasVictim(k)) &&
            (HasRoom(|rows|, nEst, mxSample) ==>
               UpdateBest(k, iChng[n]) == Run(rows, iChng, ids, nCol, nKeyCol, nEst, mxSample, seed))
  {
    var n := |rows| - 1;
    var s := Run(rows[..n], iChng[..n], ids[..n], nCol, nKeyCol, nEst, mxSample, seed);
    assert n == 0 ==> s == Init(nCol, nKeyCol, nEst, mxSample, seed) && s.iPrn == seed by {
      assert n == 0 ==> rows[..n] == [];
    }
    hide Arrival, KeepPeriodic, UpdateBest, WellFormed, HasVictim, Running, IsScan, Init, Run, HasRoom, Ready;
    LastRow(s, rows, iChng, ids, nCol, nEst, mxSample, n);
    RowChecked(s, rows[..n], ids[..n], rows[n], ids[n], iChng[n], nEst, mxSample);
    if HasRoom(|rows|, nEst, mxSample) {
      RunLonger(rows, iChng, ids, nCol, nKeyCol, nEst, mxSample, seed);
      PushIs(s, iChng[n], ids[n]);
    }
  }

  lemma PushIs(s: Accum, c: nat, id: Rowid)
    requires WellFormed(s)
    ensures PushRow(s, c, id) == UpdateBest(KeepPeriodic(Arrival(s, c, id)), c)
  {
    hide Arrive, KeepPeriodic, UpdateBest, PushPrevious, WellFormed;
  }

  lemma LaterHasNone(n: nat, nEst: nat, mxSample: nat)
    requires !HasRoom(n, nEst, mxSample)
    ensures !HasRoom(n + 1, nEst, mxSample)
  {
    if HasRoom(n + 1, nEst, mxSample) {
      RoomBefore(n, nEst, mxSample);
    }
  }

  const STAT4_SAMPLES := 24

  /** An input at which the assertion fails: as many rows as samples can be kept, all of them periodic, as the estimate
      is too small by far. */
  lemma TooSmallAnEstimate(iChng: seq<nat>, ids: seq<Rowid>, seed: nat)
    requires |iChng| == |ids| == STAT4_SAMPLES && forall i :: 0 <= i < |iChng| ==> iChng[i] == 0
    ensures Checked(iChng, ids, 1, 1, 8, STAT4_SAMPLES, seed) == None
  {
    var rows := seq(STAT4_SAMPLES, i => [i]);
    forall j, k | 0 <= j < k < |rows|
      ensures LessAt(rows[j], rows[k], 0) && Before(rows[j], rows[k], 1)
    {
    }
    assert SampleInterval(8, STAT4_SAMPLES) == 1 && !HasRoom(STAT4_SAMPLES, 8, STAT4_SAMPLES);
    hide SampleInterval, HasRoom;
    RoomIsExact(rows, iChng, ids, 1, 1, 8, STAT4_SAMPLES, seed);
  }
}
