/** The invariant of the one-pass sampler, and that the end of a group of rows keeps it:
    counts that were stored as zero are filled in, when their group ends, with the number of rows
    the whole index has in that group. */
module StatInvariant {
  import opened IndexRows
  import opened StatSpec
  import opened StatOrder

  /** Row `r` belongs to the same group by its first `i + 1` columns as the last row: the
      group may still grow. */
  ghost predicate Open(rows: seq<Row>, r: nat, i: nat) {
    r < |rows| && Same(rows[r], rows[|rows| - 1], i + 1)
  }

  /** `x` is a row of the index, with that row's rowid, and its less-than counts are exact. */
  ghost predicate Counted(rows: seq<Row>, ids: seq<Rowid>, nCol: nat, x: Sample) {
    0 < nCol && Shaped(x, nCol) && |ids| == |rows| && RowOf(x) < |rows| && x.rowid == ids[RowOf(x)] &&
    forall i | 0 <= i < nCol ::
      x.anLt[i] == CountLess(rows, rows[RowOf(x)], i + 1) &&
      x.anDLt[i] == |LesserPrefixes(rows, rows[RowOf(x)], i + 1)|
  }

  /** Equal-count `i` is exact, or it is zero and its group is open. Below `lvl` every count
      of an open group is zero. */
  ghost predicate EqAt(rows: seq<Row>, nCol: nat, x: Sample, i: nat, lvl: nat)
    requires Shaped(x, nCol) && i < nCol && RowOf(x) < |rows|
  {
    (x.anEq[i] != 0 ==> x.anEq[i] == CountEq(rows, rows[RowOf(x)], i + 1)) &&
    (x.anEq[i] == 0 ==> i < nCol - 1 && Open(rows, RowOf(x), i)) &&
    (i < lvl && Open(rows, RowOf(x), i) ==> x.anEq[i] == 0)
  }

  ghost predicate SampleOk(rows: seq<Row>, ids: seq<Rowid>, nCol: nat, x: Sample, lvl: nat) {
    Counted(rows, ids, nCol, x) &&
    (forall i | 0 <= i < nCol :: EqAt(rows, nCol, x, i, lvl)) &&
    (!x.isPSample ==> forall i | x.iCol <= i < nCol :: x.anEq[i] != 0)
  }

  ghost predicate Increasing(a: seq<Sample>) {
    forall j, k | 0 <= j < k < |a| :: RowOf(a[j]) < RowOf(a[k])
  }

  ghost predicate SamplesOk(rows: seq<Row>, ids: seq<Rowid>, nCol: nat, a: seq<Sample>, lvl: nat) {
    (forall k | 0 <= k < |a| :: SampleOk(rows, ids, nCol, a[k], lvl)) && Increasing(a)
  }

  ghost predicate CurrentOk(rows: seq<Row>, ids: seq<Rowid>, nCol: nat, x: Sample) {
    Counted(rows, ids, nCol, x) && RowOf(x) == |rows| - 1 &&
    forall i | 0 <= i < nCol ::
      x.anEq[i] == CountEq(rows, rows[|rows| - 1], i + 1) && x.anLt[i] + x.anEq[i] == |rows|
  }

  /** `x` is the candidate for the open group of the first `i + 1` columns. Its counts of
      more columns are complete: it is the last row so far, or the last row of its group. */
  ghost predicate BestOk(rows: seq<Row>, ids: seq<Rowid>, nCol: nat, x: Sample, i: nat)
    requires i < nCol - 1
  {
    Counted(rows, ids, nCol, x) && !x.isPSample && x.iCol == i && Open(rows, RowOf(x), i) &&
    (forall j | i < j < nCol :: x.anEq[j] == CountEq(rows, rows[RowOf(x)], j + 1)) &&
    (Open(rows, RowOf(x), i + 1) ==> RowOf(x) == |rows| - 1)
  }

  /** Some sample of the open group of the first `l + 1` columns is periodic or was kept for
      that group, if any sample of the group was kept for a narrower one. */
  ghost predicate Dominated(rows: seq<Row>, a: seq<Sample>, l: nat) {
    (exists k :: 0 <= k < |a| && !a[k].isPSample && Open(rows, RowOf(a[k]), l) && l < a[k].iCol) ==>
    exists u :: 0 <= u < |a| && Open(rows, RowOf(a[u]), l) && (a[u].isPSample || a[u].iCol <= l)
  }

  ghost predicate NonZeroFrom(a: seq<Sample>, nCol: nat, m: nat)
    requires AllShaped(a, nCol)
  {
    forall k, j | 0 <= k < |a| && m <= j < nCol :: a[k].anEq[j] != 0
  }

  ghost predicate MinOk(s: Accum)
    requires Allocated(s)
  {
    |s.a| == s.mxSample ==> Least(s.nCol, s.a, |s.a|, s.iMin)
  }

  /** The retained samples, apart from the order of preference among them. */
  ghost predicate Kept(rows: seq<Row>, ids: seq<Rowid>, nCol: nat, a: seq<Sample>, lvl: nat, m: nat) {
    SamplesOk(rows, ids, nCol, a, lvl) && AllShaped(a, nCol) && NonZeroFrom(a, nCol, m)
  }

  ghost predicate SamplerOk(s: Accum, rows: seq<Row>, ids: seq<Rowid>, lvl: nat) {
    WellFormed(s) && s.nRow == |rows| == |ids| && rows != [] && Sorted(rows, s.nCol) &&
    CurrentOk(rows, ids, s.nCol, s.current) &&
    Kept(rows, ids, s.nCol, s.a, lvl, s.nMaxEqZero) && s.nMaxEqZero <= s.nCol - 1 && MinOk(s)
  }

  ghost predicate AllBestOk(s: Accum, rows: seq<Row>, ids: seq<Rowid>)
    requires Allocated(s)
  {
    forall i | 0 <= i < s.nCol - 1 :: BestOk(rows, ids, s.nCol, s.aBest[i], i)
  }

  // -------------------- facts about groups --------------------

  lemma {:induction false} CountEqMono(rows: seq<Row>, x: Row, j: nat, k: nat)
    requires j <= k
    ensures CountEq(rows, x, k) <= CountEq(rows, x, j)
  {
    if rows != [] {
      CountEqMono(rows[..|rows| - 1], x, j, k);
    }
  }

  lemma {:induction false} CountEqSelf(rows: seq<Row>, r: nat, k: nat)
    requires r < |rows| && k <= |rows[r]|
    ensures CountEq(rows, rows[r], k) > 0
  {
    if r < |rows| - 1 {
      CountEqSelf(rows[..|rows| - 1], r, k);
    }
  }

  /** Two rows of one open group have the same counts for it. */
  lemma OpenCount(rows: seq<Row>, nCol: nat, r: nat, i: nat)
    requires Sorted(rows, nCol) && Open(rows, r, i) && i < nCol
    ensures CountEq(rows, rows[r], i + 1) == CountEq(rows, rows[|rows| - 1], i + 1) > 0
  {
    CountSame(rows, rows[r], rows[|rows| - 1], i + 1);
    CountEqSelf(rows, r, i + 1);
  }

  /** The candidate of level `i`, with the count of its own group, which ends now. */
  function Candidate(s: Accum, i: nat): Sample
    requires Allocated(s) && i < s.nCol
  {
    s.aBest[i].(anEq := s.aBest[i].anEq[i := s.current.anEq[i]])
  }

  lemma CandidateExact(s: Accum, rows: seq<Row>, ids: seq<Rowid>, i: nat, j: nat)
    requires SamplerOk(s, rows, ids, i + 1) && AllBestOk(s, rows, ids) && i <= j < s.nCol && i < s.nCol - 1
    ensures var b := Candidate(s, i); b.anEq[j] == CountEq(rows, rows[RowOf(b)], j + 1) > 0
  {
    hide Kept, MinOk;
    var b := s.aBest[i];
    assert BestOk(rows, ids, s.nCol, b, i);
    OpenCount(rows, s.nCol, RowOf(b), i);
    CountEqSelf(rows, RowOf(b), j + 1);
  }

  /** A non-periodic sample of the group that ends is less preferred than the group's candidate. */
  lemma WaitingIsWorse(s: Accum, rows: seq<Row>, ids: seq<Rowid>, i: nat, k: nat)
    requires SamplerOk(s, rows, ids, i + 1) && AllBestOk(s, rows, ids) && i < s.nCol - 1
    requires k < |s.a| && Open(rows, RowOf(s.a[k]), i) && !s.a[k].isPSample
    ensures Waits(s.a, i, k) && i < s.a[k].iCol && IsBetter(Candidate(s, i), s.a[k])
  {
    hide Increasing, MinOk, NonZeroFrom, CurrentOk, Sorted;
    var x, b := s.a[k], Candidate(s, i);
    assert SampleOk(rows, ids, s.nCol, x, i + 1) && EqAt(rows, s.nCol, x, i, i + 1);
    assert EqAt(rows, s.nCol, x, x.iCol, i + 1);
    CandidateExact(s, rows, ids, i, i);
    OpenCount(rows, s.nCol, RowOf(x), i);
    assert BestOk(rows, ids, s.nCol, s.aBest[i], i);
    OpenCount(rows, s.nCol, RowOf(b), i);
    CountEqMono(rows, rows[RowOf(x)], i + 1, x.iCol + 1);
  }

  /** A sample below the level waits exactly while its group is open. */
  lemma WaitsOpen(s: Accum, rows: seq<Row>, ids: seq<Rowid>, i: nat, k: nat)
    requires SamplerOk(s, rows, ids, i + 1) && i < s.nCol - 1 && k < |s.a|
    ensures Waits(s.a, i, k) <==> Open(rows, RowOf(s.a[k]), i)
  {
    assert SampleOk(rows, ids, s.nCol, s.a[k], i + 1) && EqAt(rows, s.nCol, s.a[k], i, i + 1);
  }

  /** Samples need not be kept from an exact level on: a smaller level asks for less. */
  lemma LowerLevel(rows: seq<Row>, ids: seq<Rowid>, nCol: nat, x: Sample, lvl: nat, i: nat)
    requires SampleOk(rows, ids, nCol, x, lvl) && i <= lvl
    ensures SampleOk(rows, ids, nCol, x, i)
  {
    forall j | 0 <= j < nCol ensures EqAt(rows, nCol, x, j, i) {
      assert EqAt(rows, nCol, x, j, lvl);
    }
  }

  // -------------------- one candidate at the end of its group --------------------

  /** The sample that is upgraded has no unknown count from its new column on. */
  lemma UpgradeComplete(s: Accum, rows: seq<Row>, ids: seq<Rowid>, i: nat, k: nat, j: nat)
    requires SamplerOk(s, rows, ids, i + 1) && AllBestOk(s, rows, ids) && i < s.nCol - 1
    requires Dominated(rows, s.a, i + 1)
    requires FoundIn(s.nCol, s.a, i, 0, Sharing(k)) && i < j < s.nCol
    ensures s.a[k].anEq[j] != 0
  {
    var x := s.a[k];
    assert SampleOk(rows, ids, s.nCol, x, i + 1) && EqAt(rows, s.nCol, x, j, i + 1);
    if x.anEq[j] == 0 {
      assert Open(rows, RowOf(x), j) && j < x.iCol;
      assert Open(rows, RowOf(x), i + 1);
      var u :| 0 <= u < |s.a| && Open(rows, RowOf(s.a[u]), i + 1) && (s.a[u].isPSample || s.a[u].iCol <= i + 1);
      assert Open(rows, RowOf(s.a[u]), i);
      WaitsOpen(s, rows, ids, i, u);
      WaitingIsWorse(s, rows, ids, i, u);
      DominatorIsBetter(s, rows, ids, i, k, u);
      assert false;
    }
  }

  lemma DominatorIsBetter(s: Accum, rows: seq<Row>, ids: seq<Rowid>, i: nat, k: nat, u: nat)
    requires SamplerOk(s, rows, ids, i + 1) && i + 1 < s.nCol && k < |s.a| && u < |s.a|
    requires !s.a[k].isPSample && Open(rows, RowOf(s.a[k]), i + 1) && i + 1 < s.a[k].iCol
    requires !s.a[u].isPSample && Open(rows, RowOf(s.a[u]), i + 1) && s.a[u].iCol == i + 1
    ensures IsBetter(s.a[u], s.a[k])
  {
    var x, y := s.a[k], s.a[u];
    assert SampleOk(rows, ids, s.nCol, x, i + 1) && EqAt(rows, s.nCol, x, x.iCol, i + 1);
    assert SampleOk(rows, ids, s.nCol, y, i + 1) && EqAt(rows, s.nCol, y, i + 1, i + 1);
    OpenCount(rows, s.nCol, RowOf(x), i + 1);
    OpenCount(rows, s.nCol, RowOf(y), i + 1);
    CountEqMono(rows, rows[RowOf(x)], i + 2, x.iCol + 1);
  }

  lemma KeptWithout(rows: seq<Row>, ids: seq<Rowid>, nCol: nat, a: seq<Sample>, lvl: nat, m: nat, i: nat)
    requires Kept(rows, ids, nCol, a, lvl, m) && i < |a|
    ensures Kept(rows, ids, nCol, a[..i] + a[i + 1..], lvl, m)
  {
    var e := a[..i] + a[i + 1..];
    assert forall k | 0 <= k < |e| :: e[k] == if k < i then a[k] else a[k + 1];
  }

  lemma KeptWith(rows: seq<Row>, ids: seq<Rowid>, nCol: nat, a: seq<Sample>, lvl: nat, m: nat, x: Sample)
    requires Kept(rows, ids, nCol, a, lvl, m) && SampleOk(rows, ids, nCol, x, lvl)
    requires forall k | 0 <= k < |a| :: RowOf(a[k]) < RowOf(x)
    requires forall j | m <= j < nCol :: x.anEq[j] != 0
    ensures Kept(rows, ids, nCol, a + [x], lvl, m)
  {
  }

  lemma KeptUpdate(rows: seq<Row>, ids: seq<Rowid>, nCol: nat, a: seq<Sample>, lvl: nat, m: nat, i: nat, x: Sample)
    requires Kept(rows, ids, nCol, a, lvl, m) && i < |a| && SampleOk(rows, ids, nCol, x, lvl)
    requires RowOf(x) == RowOf(a[i]) && forall j | m <= j < nCol :: x.anEq[j] != 0
    ensures Kept(rows, ids, nCol, a[i := x], lvl, m)
  {
  }

  lemma EvictedFrom(s: Accum, k: nat)
    requires WellFormed(s) && k < |Evict(s)|
    ensures exists j :: 0 <= j < |s.a| && s.a[j] == Evict(s)[k]
  {
    var j := if |s.a| >= s.mxSample && k >= s.iMin then k + 1 else k;
    assert s.a[j] == Evict(s)[k];
  }

  lemma NewMinOk(s: Accum)
    requires Allocated(s) && WellFormed(NewMin(s))
    ensures MinOk(NewMin(s))
  {
    FindMinIsLeast(s.nCol, s.a, |s.a|);
  }

  lemma EvictKept(s: Accum, rows: seq<Row>, ids: seq<Rowid>, lvl: nat)
    requires WellFormed(s) && Kept(rows, ids, s.nCol, s.a, lvl, s.nMaxEqZero)
    ensures Kept(rows, ids, s.nCol, Evict(s), lvl, s.nMaxEqZero)
  {
    hide Kept;
    if |s.a| >= s.mxSample {
      KeptWithout(rows, ids, s.nCol, s.a, lvl, s.nMaxEqZero, s.iMin);
    }
  }

  /** Adding a sample whose row follows all rows kept so far. */
  lemma AddKeeps(s: Accum, rows: seq<Row>, ids: seq<Rowid>, x: Sample, n: nat, lvl: nat)
    requires WellFormed(s) && Kept(rows, ids, s.nCol, s.a, lvl, s.nMaxEqZero) && Shaped(x, s.nCol)
    requires SampleOk(rows, ids, s.nCol, ZeroFirst(x, n), lvl)
    requires forall k | 0 <= k < |s.a| :: RowOf(s.a[k]) < RowOf(x)
    requires n <= s.nMaxEqZero
    requires forall j | n <= j < s.nCol :: x.anEq[j] != 0
    requires x.isPSample ==> |PeriodicRows(s.a)| + 1 < s.mxSample
    ensures var t := Add(s, x, n); WellFormed(t) && Kept(rows, ids, s.nCol, t.a, lvl, s.nMaxEqZero) && MinOk(t)
    ensures PeriodicRows(Add(s, x, n).a) == PeriodicRows(s.a) + if x.isPSample then [RowOf(x)] else []
  {
    AddIs(s, x, n);
    hide SampleOk, Kept, NewMin, MinOk, Evict, PeriodicRows, FindMin, AllShaped, Add, WellFormed;
    var e, y := Evict(s), ZeroFirst(x, n);
    AddWellFormed(s, x, n);
    EvictKept(s, rows, ids, lvl);
    forall k | 0 <= k < |e| ensures RowOf(e[k]) < RowOf(y) {
      EvictedFrom(s, k);
    }
    KeptWith(rows, ids, s.nCol, e, lvl, s.nMaxEqZero, y);
    EvictKeepsPeriodic(s);
    PeriodicRowsConcat(e, [y]);
    NewMinOk(s.(a := e + [y]));
  }

  /** No kept sample waits at this level, so every kept row lies before the group. */
  lemma CandidateFollows(s: Accum, rows: seq<Row>, ids: seq<Rowid>, i: nat, k: nat)
    requires SamplerOk(s, rows, ids, i + 1) && AllBestOk(s, rows, ids) && i < s.nCol - 1
    requires k < |s.a| && !Waits(s.a, i, k)
    ensures RowOf(s.a[k]) < RowOf(Candidate(s, i))
  {
    hide Least, MinOk, NonZeroFrom, CurrentOk;
    assert BestOk(rows, ids, s.nCol, s.aBest[i], i);
    WaitsOpen(s, rows, ids, i, k);
    assert SampleOk(rows, ids, s.nCol, s.a[k], i + 1);
    Contiguous(rows, s.nCol, RowOf(Candidate(s, i)), RowOf(s.a[k]), |rows| - 1, i + 1);
  }

  lemma CandidateOk(s: Accum, rows: seq<Row>, ids: seq<Rowid>, i: nat)
    requires SamplerOk(s, rows, ids, i + 1) && AllBestOk(s, rows, ids) && i < s.nCol - 1
    ensures SampleOk(rows, ids, s.nCol, ZeroFirst(Candidate(s, i), i), i)
    ensures forall j | i <= j < s.nCol :: Candidate(s, i).anEq[j] != 0
  {
    var b := Candidate(s, i);
    var y := ZeroFirst(b, i);
    assert BestOk(rows, ids, s.nCol, s.aBest[i], i);
    assert RowOf(y) == RowOf(b) == RowOf(s.aBest[i]);
    forall j | 0 <= j < s.nCol ensures EqAt(rows, s.nCol, y, j, i) && (j >= i ==> y.anEq[j] == b.anEq[j] != 0) {
      if j >= i {
        CandidateExact(s, rows, ids, i, j);
      }
    }
    assert Counted(rows, ids, s.nCol, y);
  }

  /** The end of the group of the first `i + 1` columns. */
  ghost predicate GroupStep(s: Accum, t: Accum, rows: seq<Row>, ids: seq<Rowid>, i: nat) {
    t.nCol == s.nCol && SamplerOk(t, rows, ids, i) && Dominated(rows, t.a, i) &&
    PeriodicRows(t.a) == PeriodicRows(s.a)
  }

  lemma BestStillOk(s: Accum, t: Accum, rows: seq<Row>, ids: seq<Rowid>, i: nat)
    requires SamplerOk(s, rows, ids, i + 1) && AllBestOk(s, rows, ids) && i < s.nCol - 1
    requires Allocated(t) && t.nCol == s.nCol && t.aBest == s.aBest[i := Candidate(s, i)]
    ensures AllBestOk(t, rows, ids)
  {
    forall j | 0 <= j < t.nCol - 1 ensures BestOk(rows, ids, t.nCol, t.aBest[j], j) {
      assert BestOk(rows, ids, s.nCol, s.aBest[j], j);
      assert RowOf(t.aBest[j]) == RowOf(s.aBest[j]);
    }
  }

  lemma KeptLower(rows: seq<Row>, ids: seq<Rowid>, nCol: nat, a: seq<Sample>, lvl: nat, m: nat, i: nat, m': nat)
    requires Kept(rows, ids, nCol, a, lvl, m) && i <= lvl && m <= m'
    ensures Kept(rows, ids, nCol, a, i, m')
  {
    forall k | 0 <= k < |a| ensures SampleOk(rows, ids, nCol, a[k], i) {
      LowerLevel(rows, ids, nCol, a[k], lvl, i);
    }
  }

  lemma {:induction false} PeriodicRowsUpdate(a: seq<Sample>, k: nat, x: Sample)
    requires k < |a| && a[k].isPSample == x.isPSample && RowOf(a[k]) == RowOf(x)
    ensures PeriodicRows(a[k := x]) == PeriodicRows(a)
  {
    var n := |a| - 1;
    if k < n {
      assert a[k := x][..n] == a[..n][k := x];
      PeriodicRowsUpdate(a[..n], k, x);
    } else {
      assert a[k := x][..n] == a[..n];
    }
  }

  lemma UpgradeEqAt(s: Accum, rows: seq<Row>, ids: seq<Rowid>, i: nat, k: nat, j: nat)
    requires SamplerOk(s, rows, ids, i + 1) && AllBestOk(s, rows, ids) && i < s.nCol - 1
    requires Dominated(rows, s.a, i + 1)
    requires FoundIn(s.nCol, s.a, i, 0, Sharing(k)) && j < s.nCol
    ensures var x := Upgrade(s.a[k], Candidate(s, i));
            RowOf(x) < |rows| && EqAt(rows, s.nCol, x, j, i) &&
            (j >= i || s.a[k].anEq[j] != 0 ==> x.anEq[j] != 0)
  {
    hide Increasing, Least, MinOk, CurrentOk;
    var x0, b := s.a[k], Candidate(s, i);
    assert SampleOk(rows, ids, s.nCol, x0, i + 1) && EqAt(rows, s.nCol, x0, j, i + 1);
    if j > i {
      UpgradeComplete(s, rows, ids, i, k, j);
    } else if j == i {
      WaitsOpen(s, rows, ids, i, k);
      assert BestOk(rows, ids, s.nCol, s.aBest[i], i);
      CandidateExact(s, rows, ids, i, i);
      OpenCount(rows, s.nCol, RowOf(x0), i);
      OpenCount(rows, s.nCol, RowOf(b), i);
    }
  }

  lemma UpgradeKeeps(s: Accum, rows: seq<Row>, ids: seq<Rowid>, i: nat, k: nat)
    requires SamplerOk(s, rows, ids, i + 1) && AllBestOk(s, rows, ids) && i < s.nCol - 1
    requires Dominated(rows, s.a, i + 1)
    requires FoundIn(s.nCol, s.a, i, 0, Sharing(k))
    ensures var x := Upgrade(s.a[k], Candidate(s, i));
            SampleOk(rows, ids, s.nCol, x, i) && RowOf(x) == RowOf(s.a[k]) &&
            (forall j | 0 <= j < s.nCol :: s.a[k].anEq[j] != 0 ==> x.anEq[j] != 0)
  {
    hide Least, MinOk, CurrentOk, Sorted, NonZeroFrom, BestOk;
    var x := Upgrade(s.a[k], Candidate(s, i));
    assert SampleOk(rows, ids, s.nCol, s.a[k], i + 1) && RowOf(x) == RowOf(s.a[k]);
    forall j | 0 <= j < s.nCol
      ensures EqAt(rows, s.nCol, x, j, i) && (j >= i || s.a[k].anEq[j] != 0 ==> x.anEq[j] != 0)
    {
      UpgradeEqAt(s, rows, ids, i, k, j);
    }
  }

  /** What the three branches of the step have in common. */
  ghost predicate AtGroupEnd(s: Accum, rows: seq<Row>, ids: seq<Rowid>, i: nat) {
    i < s.nCol - 1 && SamplerOk(s, rows, ids, i + 1) && AllBestOk(s, rows, ids) && Dominated(rows, s.a, i + 1)
  }

  lemma GroupEnds(s: Accum, rows: seq<Row>, ids: seq<Rowid>, i: nat)
    requires AtGroupEnd(s, rows, ids, i)
    ensures GroupStep(s, PushBestAt(s, i), rows, ids, i) && AllBestOk(PushBestAt(s, i), rows, ids)
  {
    hide Kept, CurrentOk, Sorted, MinOk, AllBestOk, Dominated, GroupStep, FoundIn, BestOk, NewMin, Add;
    var b, t := Candidate(s, i), PushBestAt(s, i);
    PushBestAtWellFormed(s, i);
    BestStillOk(s, t, rows, ids, i);
    var u := s.(aBest := t.aBest, nMaxEqZero := t.nMaxEqZero);
    if |s.a| < s.mxSample || IsBetter(b, s.a[s.iMin]) {
      ScanFinds(s.nCol, s.a, i, |s.a|, Nothing);
      match ScanSharing(s.nCol, s.a, i, |s.a|, Nothing)
      case Periodic => GroupHasPeriodic(s, t, rows, ids, i);
      case Sharing(k) => GroupUpgraded(s, u, t, rows, ids, i, k);
      case Nothing => GroupAdded(s, u, t, rows, ids, i);
    } else {
      GroupSkipped(s, t, rows, ids, i);
    }
  }

  ghost predicate OnlyBestChanged(s: Accum, t: Accum, i: nat)
    requires Allocated(s) && i < s.nCol
  {
    t == s.(aBest := s.aBest[i := Candidate(s, i)], nMaxEqZero := t.nMaxEqZero) &&
    s.nMaxEqZero <= t.nMaxEqZero <= s.nCol - 1
  }

  lemma GroupUnchanged(s: Accum, t: Accum, rows: seq<Row>, ids: seq<Rowid>, i: nat)
    requires AtGroupEnd(s, rows, ids, i) && Dominated(rows, s.a, i)
    requires OnlyBestChanged(s, t, i) && WellFormed(t)
    ensures GroupStep(s, t, rows, ids, i)
  {
    hide CurrentOk, Sorted, AllBestOk, Dominated, Least, SamplesOk, Kept;
    KeptLower(rows, ids, s.nCol, s.a, i + 1, s.nMaxEqZero, i, t.nMaxEqZero);
  }

  lemma GroupSkipped(s: Accum, t: Accum, rows: seq<Row>, ids: seq<Rowid>, i: nat)
    requires AtGroupEnd(s, rows, ids, i)
    requires |s.a| == s.mxSample && !IsBetter(Candidate(s, i), s.a[s.iMin])
    requires OnlyBestChanged(s, t, i) && WellFormed(t)
    ensures GroupStep(s, t, rows, ids, i)
  {
    forall k | 0 <= k < |s.a| && !s.a[k].isPSample ensures !Open(rows, RowOf(s.a[k]), i) {
      BetterOrder(s.nCol, Candidate(s, i), s.a[k], s.a[s.iMin]);
      if Open(rows, RowOf(s.a[k]), i) {
        WaitingIsWorse(s, rows, ids, i, k);
      }
    }
    GroupUnchanged(s, t, rows, ids, i);
  }

  lemma GroupHasPeriodic(s: Accum, t: Accum, rows: seq<Row>, ids: seq<Rowid>, i: nat)
    requires AtGroupEnd(s, rows, ids, i)
    requires FoundIn(s.nCol, s.a, i, 0, Periodic)
    requires OnlyBestChanged(s, t, i) && WellFormed(t)
    ensures GroupStep(s, t, rows, ids, i)
  {
    var u :| 0 <= u < |s.a| && Waits(s.a, i, u) && s.a[u].isPSample;
    WaitsOpen(s, rows, ids, i, u);
    GroupUnchanged(s, t, rows, ids, i);
  }

  lemma GroupUpgraded(s: Accum, u: Accum, t: Accum, rows: seq<Row>, ids: seq<Rowid>, i: nat, k: nat)
    requires AtGroupEnd(s, rows, ids, i)
    requires FoundIn(s.nCol, s.a, i, 0, Sharing(k))
    requires OnlyBestChanged(s, u, i)
    requires t == NewMin(u.(a := s.a[k := Upgrade(s.a[k], Candidate(s, i))])) && WellFormed(t)
    ensures GroupStep(s, t, rows, ids, i)
  {
    hide SamplesOk, CurrentOk, Sorted, AllBestOk, Least, SampleOk;
    var x := Upgrade(s.a[k], Candidate(s, i));
    UpgradeKeeps(s, rows, ids, i, k);
    WaitsOpen(s, rows, ids, i, k);
    KeptLower(rows, ids, s.nCol, s.a, i + 1, s.nMaxEqZero, i, t.nMaxEqZero);
    KeptUpdate(rows, ids, s.nCol, s.a, i, t.nMaxEqZero, k, x);
    PeriodicRowsUpdate(s.a, k, x);
    NewMinOk(u.(a := s.a[k := x]));
    assert t.a[k] == x && Open(rows, RowOf(x), i) && x.iCol <= i;
  }

  lemma AddedAlone(u: Accum, t: Accum, rows: seq<Row>, i: nat, y: Sample)
    requires WellFormed(u) && t.a == Evict(u) + [y] && y.iCol == i
    requires forall k | 0 <= k < |u.a| :: !Open(rows, RowOf(u.a[k]), i)
    ensures Dominated(rows, t.a, i)
  {
    forall k | 0 <= k < |t.a| - 1 ensures !Open(rows, RowOf(t.a[k]), i) {
      EvictedFrom(u, k);
    }
  }

  lemma CandidateFollowsAll(s: Accum, rows: seq<Row>, ids: seq<Rowid>, i: nat)
    requires AtGroupEnd(s, rows, ids, i)
    requires FoundIn(s.nCol, s.a, i, 0, Nothing)
    ensures forall k | 0 <= k < |s.a| :: RowOf(s.a[k]) < RowOf(Candidate(s, i))
    ensures forall k | 0 <= k < |s.a| :: !Open(rows, RowOf(s.a[k]), i)
  {
    forall k | 0 <= k < |s.a|
      ensures RowOf(s.a[k]) < RowOf(Candidate(s, i)) && !Open(rows, RowOf(s.a[k]), i)
    {
      assert !Waits(s.a, i, k);
      CandidateFollows(s, rows, ids, i, k);
      WaitsOpen(s, rows, ids, i, k);
    }
  }

  lemma GroupAdded(s: Accum, u: Accum, t: Accum, rows: seq<Row>, ids: seq<Rowid>, i: nat)
    requires AtGroupEnd(s, rows, ids, i)
    requires FoundIn(s.nCol, s.a, i, 0, Nothing)
    requires OnlyBestChanged(s, u, i) && WellFormed(u) && i <= u.nMaxEqZero
    requires t == Add(u, Candidate(s, i), i)
    ensures GroupStep(s, t, rows, ids, i)
  {
    hide Kept, CurrentOk, Sorted, MinOk, AllBestOk, Dominated, FoundIn, SampleOk, Add, Evict;
    var b := Candidate(s, i);
    CandidateOk(s, rows, ids, i);
    CandidateFollowsAll(s, rows, ids, i);
    KeptLower(rows, ids, s.nCol, s.a, i + 1, s.nMaxEqZero, i, u.nMaxEqZero);
    AddKeeps(u, rows, ids, b, i, i);
    AddedAlone(u, t, rows, i, ZeroFirst(b, i));
  }
}
