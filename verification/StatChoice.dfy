/** Which samples the sampler keeps: what an insertion replaces, and that no group of rows is left out for a smaller
    one. */
module StatChoice {
  import opened Arith
  import opened IndexRows
  import opened StatSpec
  import opened StatOrder
  import opened StatInvariant
  import opened StatTheorems
  import opened StatRoom

  // -------------------- one insertion --------------------

  /** The array after an insertion. A sample that is not periodic is not kept when a periodic one waits in its group,
      and upgrades a best one of those that wait; any other comes to the end, in the place of a least preferred
      sample that is not periodic when the array is full. */
  ghost predicate IsInserted(nCol: nat, mxSample: nat, a: seq<Sample>, x: Sample, n: nat, b: seq<Sample>)
    requires AllShaped(a, nCol) && Shaped(x, nCol)
  {
    if !x.isPSample && exists k: nat :: Waits(a, x.iCol, k) && a[k].isPSample then b == a
    else if !x.isPSample && exists k: nat :: Waits(a, x.iCol, k) then
      exists k: nat :: Waits(a, x.iCol, k) && BestWaiting(nCol, a, x.iCol, k) &&
        b == a[k := a[k].(iCol := x.iCol, anEq := a[k].anEq[x.iCol := x.anEq[x.iCol]])]
    else if |a| < mxSample then b == a + [ZeroFirst(x, n)]
    else exists m :: Least(nCol, a, |a|, m) && b == a[..m] + a[m + 1..] + [ZeroFirst(x, n)]
  }

  ghost predicate BestWaiting(nCol: nat, a: seq<Sample>, iCol: nat, k: nat)
    requires AllShaped(a, nCol) && k < |a|
  {
    forall j: nat | Waits(a, iCol, j) :: !IsBetter(a[j], a[k])
  }

  lemma InsertDoes(s: Accum, x: Sample, n: nat)
    requires WellFormed(s) && MinOk(s) && Shaped(x, s.nCol)
    ensures IsInserted(s.nCol, s.mxSample, s.a, x, n, Insert(s, x, n).a)
  {
    ScanFinds(s.nCol, s.a, x.iCol, |s.a|, Nothing);
    hide IsBetter, NewMin, Least, ZeroFirst;
    if !x.isPSample {
      match ScanSharing(s.nCol, s.a, x.iCol, |s.a|, Nothing)
      case Periodic =>
      case Sharing(k) => assert BestWaiting(s.nCol, s.a, x.iCol, k);
      case Nothing =>
        assert forall k: nat :: !Waits(s.a, x.iCol, k);
        AddedIs(s, x, n);
    } else {
      AddedIs(s, x, n);
    }
  }

  lemma AddedIs(s: Accum, x: Sample, n: nat)
    requires WellFormed(s) && MinOk(s) && Shaped(x, s.nCol)
    requires x.isPSample || ScanSharing(s.nCol, s.a, x.iCol, |s.a|, Nothing).Nothing?
    ensures |s.a| < s.mxSample ==> Insert(s, x, n).a == s.a + [ZeroFirst(x, n)]
    ensures |s.a| >= s.mxSample ==>
              Least(s.nCol, s.a, |s.a|, s.iMin) &&
              Insert(s, x, n).a == s.a[..s.iMin] + s.a[s.iMin + 1..] + [ZeroFirst(x, n)]
  {
    hide Least, ZeroFirst, NewMin, ScanSharing;
  }

  /** The candidate of a group that ends is inserted exactly when there is room or it is better than some sample that is
      not periodic. */
  lemma CandidatePushed(s: Accum, i: nat)
    requires WellFormed(s) && MinOk(s) && i < s.nCol
    ensures var b := Candidate(s, i);
            if |s.a| < s.mxSample || exists k :: 0 <= k < |s.a| && !s.a[k].isPSample && IsBetter(b, s.a[k])
            then IsInserted(s.nCol, s.mxSample, s.a, b, i, PushBestAt(s, i).a)
            else PushBestAt(s, i).a == s.a
  {
    var b := Candidate(s, i);
    var s1 := s.(aBest := s.aBest[i := b]);
    if |s.a| == s.mxSample {
      forall k | 0 <= k < |s.a| && !s.a[k].isPSample && IsBetter(b, s.a[k])
        ensures IsBetter(b, s.a[s.iMin])
      {
        BetterOrder(s.nCol, b, s.a[k], s.a[s.iMin]);
      }
    }
    InsertDoes(s1, b, i);
    hide IsInserted, IsBetter, Insert;
  }

  // -------------------- whole scans --------------------

  /** The number of rows for which a sample was kept. */
  function Weight(x: Sample): nat {
    if x.iCol < |x.anEq| then x.anEq[x.iCol] else 0
  }

  /** `x` stands for the group of row `r` by its first `l + 1` columns. */
  ghost predicate Represents(rows: seq<Row>, x: Sample, r: nat, l: nat) {
    r < |rows| && RowOf(x) < |rows| && Same(rows[RowOf(x)], rows[r], l + 1) && (x.isPSample || x.iCol <= l)
  }

  /** Every sample that is not periodic was kept for at least `n` rows. */
  ghost predicate Outweighed(a: seq<Sample>, n: nat) {
    forall k | 0 <= k < |a| && !a[k].isPSample :: n <= Weight(a[k])
  }

  /** A sample stands for the group, or the array is full and the group is no larger than any that was chosen. */
  ghost predicate Chosen(rows: seq<Row>, s: Accum, r: nat, l: nat)
    requires r < |rows|
  {
    (exists u :: 0 <= u < |s.a| && Represents(rows, s.a[u], r, l)) ||
    (|s.a| == s.mxSample && Outweighed(s.a, CountEq(rows, rows[r], l + 1)))
  }

  /** No group that has ended was left out for a smaller one; those of at least `lvl + 1` columns have all ended. */
  ghost predicate Fair(s: Accum, rows: seq<Row>, lvl: nat) {
    forall r: nat, l: nat | r < |rows| && l < s.nCol - 1 && (!Open(rows, r, l) || lvl <= l) :: Chosen(rows, s, r, l)
  }

  /** A group is no larger than a sample that stands for it is heavy. */
  lemma RepresentedWeight(rows: seq<Row>, ids: seq<Rowid>, nCol: nat, x: Sample, lvl: nat, r: nat, l: nat)
    requires Sorted(rows, nCol) && SampleOk(rows, ids, nCol, x, lvl) && !x.isPSample && Represents(rows, x, r, l)
    ensures CountEq(rows, rows[r], l + 1) <= Weight(x)
  {
    assert EqAt(rows, nCol, x, x.iCol, lvl);
    hide CountEq, CountLess, LesserPrefixes;
    CountSame(rows, rows[RowOf(x)], rows[r], l + 1);
    CountEqMono(rows, rows[RowOf(x)], x.iCol + 1, l + 1);
  }

  lemma NotBetterWeight(x: Sample, y: Sample)
    requires x.iCol < |x.anEq| == |y.anEq| && y.iCol < |y.anEq| && !IsBetter(x, y)
    ensures Weight(x) <= Weight(y)
  {
  }

  /** What stays when a sample is added, and what it weighs. */
  lemma Stays(s: Accum, x: Sample, n: nat, k: nat)
    requires WellFormed(s) && MinOk(s) && Shaped(x, s.nCol) && k < |s.a| && (|s.a| == s.mxSample ==> k != s.iMin)
    ensures exists j :: 0 <= j < |Add(s, x, n).a| && Add(s, x, n).a[j] == s.a[k]
  {
    var j := if |s.a| == s.mxSample && s.iMin < k then k - 1 else k;
    assert Add(s, x, n).a[j] == s.a[k];
  }

  /** After adding, the array is as heavy as the sample that went. */
  lemma AddOutweighs(s: Accum, x: Sample, n: nat, w: nat)
    requires WellFormed(s) && MinOk(s) && Shaped(x, s.nCol) && (x.isPSample || n <= x.iCol) && |s.a| == s.mxSample
    requires w <= Weight(s.a[s.iMin]) && (!x.isPSample ==> Weight(s.a[s.iMin]) <= Weight(x))
    ensures var t := Add(s, x, n);
            |t.a| == t.mxSample && Allocated(t) && Outweighed(t.a, w)
  {
    var t := Add(s, x, n);
    AddIs(s, x, n);
    forall k | 0 <= k < |t.a| && !t.a[k].isPSample
      ensures w <= Weight(t.a[k])
    {
      if k < |t.a| - 1 {
        EvictedFrom(s, k);
        var j :| 0 <= j < |s.a| && s.a[j] == Evict(s)[k];
        NotBetterWeight(s.a[s.iMin], s.a[j]);
      }
    }
  }

  lemma AddKeepsChosen(s: Accum, rows: seq<Row>, ids: seq<Rowid>, x: Sample, n: nat, lvl: nat, r: nat, l: nat)
    requires WellFormed(s) && MinOk(s) && Sorted(rows, s.nCol) && SamplesOk(rows, ids, s.nCol, s.a, lvl)
    requires Shaped(x, s.nCol) && (x.isPSample || n <= x.iCol) && r < |rows| && Chosen(rows, s, r, l)
    requires |s.a| == s.mxSample && !x.isPSample ==> Weight(s.a[s.iMin]) <= Weight(x)
    ensures Allocated(Add(s, x, n)) && Chosen(rows, Add(s, x, n), r, l)
  {
    AddIs(s, x, n);
    var w := CountEq(rows, rows[r], l + 1);
    if u :| 0 <= u < |s.a| && Represents(rows, s.a[u], r, l) {
      if |s.a| == s.mxSample && u == s.iMin {
        RepresentedWeight(rows, ids, s.nCol, s.a[u], lvl, r, l);
        AddOutweighs(s, x, n, w);
      } else {
        hide Represents, Add, MinOk, Allocated;
        Stays(s, x, n, u);
      }
    } else {
      AddOutweighs(s, x, n, w);
    }
  }

  // -------------------- the end of a group --------------------

  /** An upgrade makes a sample stand for more and weigh no less. */
  lemma UpgradeKeepsChosen(s: Accum, t: Accum, rows: seq<Row>, k: nat, y: Sample, r: nat, l: nat)
    requires Allocated(s) && Allocated(t) && t.nCol == s.nCol && t.mxSample == s.mxSample && k < |s.a|
    requires t.a == s.a[k := y] && Shaped(y, s.nCol) && !s.a[k].isPSample && !y.isPSample && RowOf(y) == RowOf(s.a[k])
    requires y.iCol <= s.a[k].iCol && Weight(s.a[k]) <= Weight(y) && r < |rows| && Chosen(rows, s, r, l)
    ensures Chosen(rows, t, r, l)
  {
    if u :| 0 <= u < |s.a| && Represents(rows, s.a[u], r, l) {
      assert Represents(rows, t.a[u], r, l);
    } else {
      var w := CountEq(rows, rows[r], l + 1);
      hide Represents, Allocated;
      assert forall j | 0 <= j < |t.a| && !t.a[j].isPSample :: w <= Weight(t.a[j]);
    }
  }

  /** The samples are as they were. */
  lemma SameKeepsChosen(s: Accum, t: Accum, rows: seq<Row>, r: nat, l: nat)
    requires Allocated(s) && Allocated(t) && t.nCol == s.nCol && t.mxSample == s.mxSample && t.a == s.a
    requires r < |rows| && Chosen(rows, s, r, l)
    ensures Chosen(rows, t, r, l)
  {
    hide Represents, Weight, Allocated;
  }

  lemma OpenTogether(rows: seq<Row>, nCol: nat, r: nat, q: nat, i: nat)
    requires Sorted(rows, nCol) && i < nCol && Open(rows, r, i) && Open(rows, q, i)
    ensures Same(rows[q], rows[r], i + 1) && CountEq(rows, rows[r], i + 1) == CountEq(rows, rows[|rows| - 1], i + 1)
  {
    OpenCount(rows, nCol, r, i);
  }

  /** A sample of the group that ends stands for it. */
  lemma StandsForGroup(s: Accum, rows: seq<Row>, u: nat, r: nat, i: nat)
    requires Allocated(s) && Sorted(rows, s.nCol) && i < s.nCol && u < |s.a| && Open(rows, r, i)
    requires Open(rows, RowOf(s.a[u]), i) && (s.a[u].isPSample || s.a[u].iCol <= i)
    ensures Chosen(rows, s, r, i)
  {
    OpenTogether(rows, s.nCol, r, RowOf(s.a[u]), i);
    assert Represents(rows, s.a[u], r, i);
  }

  lemma CandidateWeight(s: Accum, rows: seq<Row>, ids: seq<Rowid>, i: nat, r: nat)
    requires AtGroupEnd(s, rows, ids, i) && Open(rows, r, i)
    ensures Weight(Candidate(s, i)) == CountEq(rows, rows[r], i + 1) && Open(rows, RowOf(Candidate(s, i)), i)
    ensures Shaped(Candidate(s, i), s.nCol) && Candidate(s, i).iCol == i && !Candidate(s, i).isPSample
  {
    hide Kept, MinOk, Dominated;
    CandidateExact(s, rows, ids, i, i);
    assert BestOk(rows, ids, s.nCol, s.aBest[i], i);
    OpenTogether(rows, s.nCol, r, RowOf(Candidate(s, i)), i);
    CountSame(rows, rows[RowOf(Candidate(s, i))], rows[r], i + 1);
  }

  /** The candidate is passed over only for heavier samples. */
  lemma SkippedChosen(s: Accum, rows: seq<Row>, ids: seq<Rowid>, i: nat, r: nat)
    requires AtGroupEnd(s, rows, ids, i) && Open(rows, r, i)
    requires |s.a| == s.mxSample && !IsBetter(Candidate(s, i), s.a[s.iMin])
    ensures Chosen(rows, s, r, i)
  {
    CandidateWeight(s, rows, ids, i, r);
    var b := Candidate(s, i);
    NotBetterWeight(b, s.a[s.iMin]);
    hide Kept, CurrentOk, AllBestOk, Dominated, IsBetter, Represents;
    forall k | 0 <= k < |s.a| && !s.a[k].isPSample
      ensures Weight(b) <= Weight(s.a[k])
    {
      NotBetterWeight(s.a[s.iMin], s.a[k]);
    }
  }

  /** What the push of one candidate does to one group: nothing, an upgrade, or a new sample. */
  lemma GroupPushed(s: Accum, rows: seq<Row>, ids: seq<Rowid>, i: nat, r: nat, l: nat)
    requires AtGroupEnd(s, rows, ids, i) && r < |rows| && l < s.nCol
    requires Chosen(rows, s, r, l) || (l == i && Open(rows, r, i))
    ensures Allocated(PushBestAt(s, i)) && Chosen(rows, PushBestAt(s, i), r, l)
  {
    hide Kept, CurrentOk, Sorted, MinOk, AllBestOk, Dominated, FoundIn, BestOk, NewMin, Add, Chosen, Open;
    var b, t := Candidate(s, i), PushBestAt(s, i);
    PushBestAtWellFormed(s, i);
    var u := s.(aBest := t.aBest, nMaxEqZero := t.nMaxEqZero);
    if |s.a| < s.mxSample || IsBetter(b, s.a[s.iMin]) {
      ScanFinds(s.nCol, s.a, i, |s.a|, Nothing);
      match ScanSharing(s.nCol, s.a, i, |s.a|, Nothing)
      case Periodic => PushedPeriodic(s, t, rows, ids, i, r, l);
      case Sharing(k) => PushedUpgrade(s, t, rows, ids, i, k, r, l);
      case Nothing => PushedNew(s, u, t, b, rows, ids, i, r, l);
    } else {
      if l == i && Open(rows, r, i) { SkippedChosen(s, rows, ids, i, r); }
      SameKeepsChosen(s, t, rows, r, l);
    }
  }

  lemma PushedPeriodic(s: Accum, t: Accum, rows: seq<Row>, ids: seq<Rowid>, i: nat, r: nat, l: nat)
    requires AtGroupEnd(s, rows, ids, i) && FoundIn(s.nCol, s.a, i, 0, Periodic) && r < |rows| && l < s.nCol
    requires Allocated(t) && t.nCol == s.nCol && t.mxSample == s.mxSample && t.a == s.a
    requires Chosen(rows, s, r, l) || (l == i && Open(rows, r, i))
    ensures Chosen(rows, t, r, l)
  {
    var u: nat :| u < |s.a| && Waits(s.a, i, u) && s.a[u].isPSample;
    WaitsOpen(s, rows, ids, i, u);
    hide Kept, CurrentOk, Sorted, MinOk, AllBestOk, Dominated, FoundIn, Chosen, Open;
    if l == i && Open(rows, r, i) { StandsForGroup(s, rows, u, r, i); }
    SameKeepsChosen(s, t, rows, r, l);
  }

  lemma PushedUpgrade(s: Accum, t: Accum, rows: seq<Row>, ids: seq<Rowid>, i: nat, k: nat, r: nat, l: nat)
    requires AtGroupEnd(s, rows, ids, i) && FoundIn(s.nCol, s.a, i, 0, Sharing(k)) && r < |rows| && l < s.nCol
    requires Allocated(t) && t.nCol == s.nCol && t.mxSample == s.mxSample
    requires t.a == s.a[k := Upgrade(s.a[k], Candidate(s, i))]
    requires Chosen(rows, s, r, l) || (l == i && Open(rows, r, i))
    ensures Chosen(rows, t, r, l)
  {
    var b, y := Candidate(s, i), Upgrade(s.a[k], Candidate(s, i));
    WaitsOpen(s, rows, ids, i, k);
    WaitingIsWorse(s, rows, ids, i, k);
    assert Weight(s.a[k]) <= Weight(b) == Weight(y) && RowOf(y) == RowOf(s.a[k]);
    hide Kept, CurrentOk, Sorted, MinOk, AllBestOk, Dominated, FoundIn, Chosen, Open, IsBetter;
    if Chosen(rows, s, r, l) {
      UpgradeKeepsChosen(s, t, rows, k, y, r, l);
    } else {
      StandsForGroup(t, rows, k, r, i);
    }
  }

  lemma PushedNew(s: Accum, u: Accum, t: Accum, b: Sample, rows: seq<Row>, ids: seq<Rowid>, i: nat, r: nat, l: nat)
    requires WellFormed(s) && i < s.nCol && b == Candidate(s, i) && Shaped(b, s.nCol)
    requires |s.a| < s.mxSample || IsBetter(b, s.a[s.iMin])
    requires u == s.(aBest := u.aBest, nMaxEqZero := u.nMaxEqZero) && WellFormed(u) && t == Add(u, b, i)
    requires r < |rows| && l < s.nCol && Allocated(t)
    requires Chosen(rows, s, r, l) || (l == i && Open(rows, r, i))
    requires AtGroupEnd(s, rows, ids, i)
    ensures Chosen(rows, t, r, l)
  {
    hide *;
    BeforeNew(s, u, b, rows, ids, i);
    if Chosen(rows, s, r, l) {
      SameKeepsChosen(s, u, rows, r, l);
      AddKeepsChosen(u, rows, ids, b, i, i + 1, r, l);
    } else {
      NewStands(s, u, t, rows, ids, i, r);
    }
  }

  lemma BeforeNew(s: Accum, u: Accum, b: Sample, rows: seq<Row>, ids: seq<Rowid>, i: nat)
    requires WellFormed(s) && i < s.nCol && b == Candidate(s, i) && Shaped(b, s.nCol)
    requires |s.a| < s.mxSample || IsBetter(b, s.a[s.iMin])
    requires u == s.(aBest := u.aBest, nMaxEqZero := u.nMaxEqZero) && WellFormed(u)
    requires AtGroupEnd(s, rows, ids, i)
    ensures Allocated(s) && Allocated(u) && Sorted(rows, u.nCol) && SamplesOk(rows, ids, u.nCol, u.a, i + 1) && MinOk(u)
    ensures u.nCol == s.nCol && u.mxSample == s.mxSample && u.a == s.a && b.iCol == i && !b.isPSample
    ensures |u.a| == u.mxSample ==> 0 <= u.iMin < |u.a| && Weight(u.a[u.iMin]) <= Weight(b)
  {
    hide SamplesOk, NonZeroFrom, CurrentOk, Sorted, AllBestOk, Dominated, Least;
  }

  lemma NewStands(s: Accum, u: Accum, t: Accum, rows: seq<Row>, ids: seq<Rowid>, i: nat, r: nat)
    requires AtGroupEnd(s, rows, ids, i) && Open(rows, r, i) && r < |rows| && Allocated(t)
    requires u == s.(aBest := u.aBest, nMaxEqZero := u.nMaxEqZero) && WellFormed(u)
    requires Shaped(Candidate(s, i), s.nCol) && t == Add(u, Candidate(s, i), i)
    ensures Chosen(rows, t, r, i)
  {
    var b := Candidate(s, i);
    CandidateWeight(s, rows, ids, i, r);
    assert RowOf(ZeroFirst(b, i)) == RowOf(b) && t.a[|t.a| - 1] == ZeroFirst(b, i) && Sorted(rows, t.nCol);
    hide Kept, CurrentOk, MinOk, AllBestOk, Dominated, Chosen, Open, SamplesOk, Add, Sorted, Allocated;
    StandsForGroup(t, rows, |t.a| - 1, r, i);
  }

  lemma GroupStaysFair(s: Accum, rows: seq<Row>, ids: seq<Rowid>, i: nat)
    requires AtGroupEnd(s, rows, ids, i) && Fair(s, rows, i + 1)
    ensures Allocated(PushBestAt(s, i)) && Fair(PushBestAt(s, i), rows, i)
  {
    hide AtGroupEnd, Chosen, Open, PushBestAt, WellFormed;
    PushedAllocated(s, rows, ids, i);
    var t := PushBestAt(s, i);
    forall r: nat, l: nat | r < |rows| && l < t.nCol - 1 && (!Open(rows, r, l) || i <= l)
      ensures Chosen(rows, t, r, l)
    {
      GroupPushed(s, rows, ids, i, r, l);
    }
  }

  lemma PushedAllocated(s: Accum, rows: seq<Row>, ids: seq<Rowid>, i: nat)
    requires AtGroupEnd(s, rows, ids, i)
    ensures WellFormed(s) && i < s.nCol && Allocated(PushBestAt(s, i)) && PushBestAt(s, i).nCol == s.nCol
  {
    PushBestAtWellFormed(s, i);
    hide PushBestAt, Allocated;
  }

  lemma {:induction false} GroupsStayFair(s: Accum, rows: seq<Row>, ids: seq<Rowid>, i: int, c: nat)
    requires rows != [] && c < s.nCol && c - 1 <= i < s.nCol - 1 && WellFormed(s)
    requires i >= 0 ==> AtGroupEnd(s, rows, ids, i)
    requires Fair(s, rows, if i >= 0 then i + 1 else 0)
    ensures Fair(PushBest(s, i, c), rows, c)
    decreases i + 1
  {
    hide PushBestAt, Kept, AllBestOk, MinOk, CurrentOk, Sorted, Chosen, Open, Fair;
    if i >= c {
      GroupEnds(s, rows, ids, i);
      GroupStaysFair(s, rows, ids, i);
      PushBestAtWellFormed(s, i);
      GroupsStayFair(PushBestAt(s, i), rows, ids, i - 1, c);
    }
  }

  lemma FillKeepsChosen(s: Accum, rows: seq<Row>, ids: seq<Rowid>, c: nat, lvl: nat, r: nat, l: nat)
    requires WellFormed(s) && SamplesOk(rows, ids, s.nCol, s.a, lvl) && r < |rows| && Chosen(rows, s, r, l)
    ensures Chosen(rows, Fill(s, c), r, l)
  {
    var t := Fill(s, c);
    forall k | 0 <= k < |s.a|
      ensures RowOf(t.a[k]) == RowOf(s.a[k]) && t.a[k].iCol == s.a[k].iCol && t.a[k].isPSample == s.a[k].isPSample
      ensures !s.a[k].isPSample ==> Weight(t.a[k]) == Weight(s.a[k])
    {
      assert SampleOk(rows, ids, s.nCol, s.a[k], lvl);
    }
    hide SamplesOk, Fill, Same;
    if u :| 0 <= u < |s.a| && Represents(rows, s.a[u], r, l) {
      assert Represents(rows, t.a[u], r, l);
    }
  }

  lemma PreviousFair(s: Accum, rows: seq<Row>, ids: seq<Rowid>, c: nat)
    requires rows != [] && Scanning(s, rows, ids) && c < s.nCol && Fair(s, rows, s.nCol - 1)
    ensures Fair(PushPrevious(s, c), rows, c)
  {
    hide AtGroupEnd, Chosen, Open, PushBest, Fill, Kept, MinOk, CurrentOk, Sorted, Fair, AllBestOk;
    FirstGroup(s, rows, ids);
    GroupsEnd(s, rows, ids, s.nCol - 2, c);
    GroupsStayFair(s, rows, ids, s.nCol - 2, c);
    FillStaysFair(PushBest(s, s.nCol - 2, c), rows, ids, c);
  }

  lemma FirstGroup(s: Accum, rows: seq<Row>, ids: seq<Rowid>)
    requires rows != [] && Scanning(s, rows, ids)
    ensures WellFormed(s) && (s.nCol >= 2 ==> AtGroupEnd(s, rows, ids, s.nCol - 2))
  {
    hide Kept, CurrentOk, Sorted, MinOk, AllBestOk, Open;
  }

  lemma FillStaysFair(u: Accum, rows: seq<Row>, ids: seq<Rowid>, c: nat)
    requires SamplerOk(u, rows, ids, c) && Fair(u, rows, c)
    ensures Fair(Fill(u, c), rows, c)
  {
    assert WellFormed(u) && SamplesOk(rows, ids, u.nCol, u.a, c);
    hide Chosen, Open, Fill, SamplesOk, WellFormed, SamplerOk;
    forall r: nat, l: nat | r < |rows| && l < u.nCol - 1 && (!Open(rows, r, l) || c <= l)
      ensures Chosen(rows, Fill(u, c), r, l)
    {
      FillKeepsChosen(u, rows, ids, c, c, r, l);
    }
  }

  // -------------------- the next row --------------------

  /** A group that has ended stays as it is when a row arrives. */
  lemma ChosenArrives(s: Accum, t: Accum, rows: seq<Row>, y: Row, r: nat, l: nat)
    requires Allocated(s) && Allocated(t) && t.nCol == s.nCol && t.mxSample == s.mxSample && t.a == s.a
    requires Sorted(rows + [y], s.nCol) && l < s.nCol && r < |rows| && !Same(rows[r], y, l + 1)
    requires forall k | 0 <= k < |s.a| :: RowOf(s.a[k]) < |rows|
    requires Chosen(rows, s, r, l)
    ensures Chosen(rows + [y], t, r, l)
  {
    var all := rows + [y];
    CountsKeep(rows, s.nCol, y, r, l + 1);
    assert all[r] == rows[r];
    if u :| 0 <= u < |s.a| && Represents(rows, s.a[u], r, l) {
      assert Represents(all, t.a[u], r, l);
    }
  }

  lemma ArrivesFair(s: Accum, t: Accum, rows: seq<Row>, y: Row, c: nat)
    requires Allocated(s) && Allocated(t) && t.nCol == s.nCol && t.mxSample == s.mxSample && t.a == s.a
    requires rows != [] && Sorted(rows, s.nCol) && LessAt(rows[|rows| - 1], y, c) && Fair(s, rows, c)
    requires forall k | 0 <= k < |s.a| :: RowOf(s.a[k]) < |rows|
    ensures Fair(t, rows + [y], t.nCol - 1)
  {
    var all := rows + [y];
    SortedPush(rows, s.nCol, y, c);
    hide Chosen, Sorted, Allocated;
    forall r: nat, l: nat | r < |all| && l < t.nCol - 1 && (!Open(all, r, l) || t.nCol - 1 <= l)
      ensures Chosen(all, t, r, l)
    {
      assert r < |rows| && !Same(rows[r], y, l + 1);
      EndedBefore(rows, s.nCol, y, c, r, l);
      ChosenArrives(s, t, rows, y, r, l);
    }
  }

  lemma EndedBefore(rows: seq<Row>, nCol: nat, y: Row, c: nat, r: nat, l: nat)
    requires rows != [] && LessAt(rows[|rows| - 1], y, c) && r < |rows| && !Same(rows[r], y, l + 1)
    requires Sorted(rows, nCol) && l < nCol
    ensures !Open(rows, r, l) || c <= l
  {
  }

  lemma PeriodicFair(s: Accum, n: nat, rows: seq<Row>, ids: seq<Rowid>)
    requires WellFormed(s) && n == s.nCol - 1 && Fair(s, rows, n) && rows != [] && SamplerOk(s, rows, ids, n)
    ensures Fair(KeepPeriodic(s), rows, n)
  {
    hide *;
    var u, x := PeriodicIs(s, n, rows, ids);
    if KeepPeriodic(s) != s {
      PeriodicStaysFair(s, u, x, n, rows, ids);
    }
  }

  /** Keeping a periodic sample is adding it. */
  lemma PeriodicIs(s: Accum, n: nat, rows: seq<Row>, ids: seq<Rowid>) returns (u: Accum, x: Sample)
    requires WellFormed(s) && n == s.nCol - 1 && rows != [] && SamplerOk(s, rows, ids, n)
    ensures Allocated(s) && WellFormed(u) && u == s.(nMaxEqZero := u.nMaxEqZero) && Shaped(x, u.nCol) && x.isPSample
    ensures KeepPeriodic(s) == s || KeepPeriodic(s) == Add(u, x, n)
    ensures MinOk(u) && SamplesOk(rows, ids, u.nCol, u.a, n) && Sorted(rows, u.nCol)
  {
    u, x := s.(nMaxEqZero := if n > s.nMaxEqZero then n else s.nMaxEqZero), s.current.(isPSample := true);
    hide Add, SamplesOk, NonZeroFrom, CurrentOk, Sorted, Least;
  }

  lemma PeriodicStaysFair(s: Accum, u: Accum, x: Sample, n: nat, rows: seq<Row>, ids: seq<Rowid>)
    requires WellFormed(u) && n == u.nCol - 1 && Shaped(x, u.nCol) && x.isPSample
    requires Allocated(s) && u == s.(nMaxEqZero := u.nMaxEqZero) && Fair(s, rows, n)
    requires MinOk(u) && Sorted(rows, u.nCol) && SamplesOk(rows, ids, u.nCol, u.a, n)
    ensures Fair(Add(u, x, n), rows, n)
  {
    var t := Add(u, x, n);
    hide Open, Chosen, SamplesOk, Add, MinOk, Sorted, WellFormed, Allocated, Shaped;
    forall r: nat, l: nat | r < |rows| && l < t.nCol - 1 && (!Open(rows, r, l) || n <= l)
      ensures Chosen(rows, t, r, l)
    {
      assert Chosen(rows, s, r, l);
      SameKeepsChosen(s, u, rows, r, l);
      AddKeepsChosen(u, rows, ids, x, n, n, r, l);
    }
  }

  /** A scan of one row has ended no group. */
  lemma FirstFair(t: Accum, y: Row)
    requires Allocated(t) && |y| == t.nCol
    ensures Fair(t, [y], t.nCol - 1)
  {
    assert forall r: nat, l: nat | r < 1 && l < t.nCol - 1 :: Open([y], r, l);
    hide Chosen, Open, Allocated;
  }

  /** One row. */
  lemma RowFair(s: Accum, rows: seq<Row>, ids: seq<Rowid>, y: Row, id: Rowid, c: nat, nEst: nat, mxSample: nat)
    requires rows != [] && Ready(s, rows, ids, y, c, nEst, mxSample) && WellFormed(s) && Fair(s, rows, s.nCol - 1)
    requires HasRoom(|rows| + 1, nEst, mxSample)
    ensures Fair(PushRow(s, c, id), rows + [y], s.nCol - 1)
  {
    hide Fair, Kept, CurrentOk, MinOk, AllBestOk, PushPrevious, Sorted, LessAt, Arrive, KeepPeriodic, UpdateBest,
      Settled;
    var u := PushPrevious(s, c);
    NextArrives(s, rows, ids, y, id, c, nEst, mxSample);
    BeforeRow(s, rows, ids, y, id, c, nEst, mxSample);
    PreviousFair(s, rows, ids, c);
    ArrivalFair(u, rows, ids, y, id, c);
  }

  lemma BeforeRow(s: Accum, rows: seq<Row>, ids: seq<Rowid>, y: Row, id: Rowid, c: nat, nEst: nat, mxSample: nat)
    requires rows != [] && Ready(s, rows, ids, y, c, nEst, mxSample)
    ensures WellFormed(s) && Scanning(s, rows, ids) && c < s.nCol && Sorted(rows, s.nCol) && s.nRow > 0
    ensures SamplerOk(PushPrevious(s, c), rows, ids, c)
  {
    assert c < s.nCol;
    hide Kept, CurrentOk, MinOk, AllBestOk, PushPrevious, Sorted, LessAt;
    PreviousSettled(s, rows, ids, c);
  }

  lemma ArrivalFair(u: Accum, rows: seq<Row>, ids: seq<Rowid>, y: Row, id: Rowid, c: nat)
    requires rows != [] && 0 < u.nCol && SamplerOk(u, rows, ids, c) && LessAt(rows[|rows| - 1], y, c)
    requires Fair(u, rows, c)
    requires SamplerOk(Arrive(u, c, id), rows + [y], ids + [id], u.nCol - 1)
    ensures Fair(UpdateBest(KeepPeriodic(Arrive(u, c, id)), c), rows + [y], u.nCol - 1)
  {
    var t := Arrive(u, c, id);
    hide *;
    BeforeArrival(u, t, rows, ids, id, c);
    ArrivesFair(u, t, rows, y, c);
    PeriodicFair(t, u.nCol - 1, rows + [y], ids + [id]);
    PeriodicSize(t);
    var k := KeepPeriodic(t);
    assert k.nCol == u.nCol;
    SameFair(k, UpdateBest(k, c), rows + [y], c);
  }

  lemma BeforeArrival(u: Accum, t: Accum, rows: seq<Row>, ids: seq<Rowid>, id: Rowid, c: nat)
    requires rows != [] && 0 < u.nCol && SamplerOk(u, rows, ids, c) && t == Arrive(u, c, id)
    ensures WellFormed(u) && Allocated(u) && Allocated(t) && WellFormed(t) && Sorted(rows, u.nCol)
    ensures t.a == u.a && t.nCol == u.nCol && t.mxSample == u.mxSample
    ensures forall k | 0 <= k < |u.a| :: RowOf(u.a[k]) < |rows|
  {
    SamplesInRange(u, rows, ids, c);
    hide Kept, CurrentOk, MinOk, Sorted, NextCounts;
  }

  lemma PeriodicSize(t: Accum)
    requires WellFormed(t)
    ensures KeepPeriodic(t).nCol == t.nCol && Allocated(KeepPeriodic(t))
  {
    hide Insert;
  }

  lemma SameFair(k: Accum, u: Accum, rows: seq<Row>, c: nat)
    requires Allocated(k) && u == UpdateBest(k, c) && Fair(k, rows, k.nCol - 1)
    ensures Allocated(u) && u.nCol == k.nCol && Fair(u, rows, k.nCol - 1)
  {
    hide Open, Represents, Outweighed;
    forall r: nat, l: nat | r < |rows| && l < u.nCol - 1 && (!Open(rows, r, l) || u.nCol - 1 <= l)
      ensures Chosen(rows, u, r, l)
    {
      assert Chosen(rows, k, r, l);
    }
  }

  // -------------------- the whole scan --------------------

  /** Between any two rows of any scan, no group that has ended was left out for a smaller one. */
  lemma {:induction false} RunFair(rows: seq<Row>, iChng: seq<nat>, ids: seq<Rowid>,
                                   nCol: nat, nKeyCol: nat, nEst: nat, mxSample: nat, seed: nat)
    requires 0 < nKeyCol <= nCol && 0 < mxSample && IsScan(rows, iChng, ids, nCol) && rows != []
    requires HasRoom(|rows|, nEst, mxSample)
    ensures Fair(Run(rows, iChng, ids, nCol, nKeyCol, nEst, mxSample, seed), rows, nCol - 1)
  {
    hide *;
    var n := |rows| - 1;
    if n == 0 {
      OneRowFair(rows, iChng, ids, nCol, nKeyCol, nEst, mxSample, seed);
    } else {
      RunAfter(rows, iChng, ids, nCol, nKeyCol, nEst, mxSample, seed);
      RunFair(rows[..n], iChng[..n], ids[..n], nCol, nKeyCol, nEst, mxSample, seed);
      var s := Run(rows[..n], iChng[..n], ids[..n], nCol, nKeyCol, nEst, mxSample, seed);
      assert rows == rows[..n] + [rows[n]];
      RowFair(s, rows[..n], ids[..n], rows[n], ids[n], iChng[n], nEst, mxSample);
    }
  }

  lemma OneRowFair(rows: seq<Row>, iChng: seq<nat>, ids: seq<Rowid>,
                   nCol: nat, nKeyCol: nat, nEst: nat, mxSample: nat, seed: nat)
    requires 0 < nKeyCol <= nCol && 0 < mxSample && IsScan(rows, iChng, ids, nCol) && |rows| == 1
    requires HasRoom(|rows|, nEst, mxSample)
    ensures Fair(Run(rows, iChng, ids, nCol, nKeyCol, nEst, mxSample, seed), rows, nCol - 1)
  {
    var t := Run(rows, iChng, ids, nCol, nKeyCol, nEst, mxSample, seed);
    assert rows == [rows[0]] && |rows[0]| == nCol && Allocated(t);
    hide Run, Fair, Running, IsScan;
    FirstFair(t, rows[0]);
  }

  lemma ChosenAtEnd(rows: seq<Row>, ids: seq<Rowid>, t: Accum, r: nat, l: nat)
    requires Sorted(rows, t.nCol) && r < |rows| && l < t.nCol - 1 && Fair(t, rows, 0) && AllShaped(t.a, t.nCol)
    requires forall k | 0 <= k < |t.a| :: Exact(rows, ids, t.nCol, t.a[k])
    ensures GroupKept(rows, t.a, t.mxSample, r, l)
  {
    assert Chosen(rows, t, r, l);
    hide Fair, Exact, Sorted, AllShaped;
    if u :| 0 <= u < |t.a| && Represents(rows, t.a[u], r, l) {
      hide *;
      KeptBySample(rows, t.a, t.mxSample, u, r, l);
    } else {
      var w := CountEq(rows, rows[r], l + 1);
      assert Outweighed(t.a, w);
      hide *;
      KeptByWeight(rows, ids, t.nCol, t.a, t.mxSample, r, l, w);
    }
  }

  lemma KeptBySample(rows: seq<Row>, a: seq<Sample>, mxSample: nat, u: nat, r: nat, l: nat)
    requires r < |rows| && u < |a| && Represents(rows, a[u], r, l)
    ensures GroupKept(rows, a, mxSample, r, l)
  {
    hide CountEq, Same;
  }

  lemma KeptByWeight(rows: seq<Row>, ids: seq<Rowid>, nCol: nat, a: seq<Sample>, mxSample: nat, r: nat, l: nat, w: nat)
    requires r < |rows| && |a| == mxSample && w == CountEq(rows, rows[r], l + 1) && Outweighed(a, w)
    requires forall k | 0 <= k < |a| :: Exact(rows, ids, nCol, a[k])
    ensures GroupKept(rows, a, mxSample, r, l)
  {
    hide CountEq, Same, Exact, Weight;
    forall k | 0 <= k < |a| && !a[k].isPSample
      ensures RowOf(a[k]) < |rows| && w <= CountEq(rows, rows[RowOf(a[k])], a[k].iCol + 1)
    {
      ExactWeight(rows, ids, nCol, a[k]);
    }
  }

  lemma ExactWeight(rows: seq<Row>, ids: seq<Rowid>, nCol: nat, x: Sample)
    requires Exact(rows, ids, nCol, x)
    ensures RowOf(x) < |rows| && Weight(x) == CountEq(rows, rows[RowOf(x)], x.iCol + 1)
  {
    hide CountEq, CountLess, LesserPrefixes, RowOf;
  }

  /** Some sample is a row of the group of row `r` by its first `l + 1` columns; or the array is full, and that group is
      no larger than any for which a sample that is not periodic was kept. */
  ghost predicate GroupKept(rows: seq<Row>, a: seq<Sample>, mxSample: nat, r: nat, l: nat)
    requires r < |rows|
  {
    (exists u :: 0 <= u < |a| && RowOf(a[u]) < |rows| && Same(rows[RowOf(a[u])], rows[r], l + 1)) ||
    (|a| == mxSample && forall k | 0 <= k < |a| && !a[k].isPSample ::
      RowOf(a[k]) < |rows| && CountEq(rows, rows[r], l + 1) <= CountEq(rows, rows[RowOf(a[k])], a[k].iCol + 1))
  }

  /** The samples at the end of any scan are those of the largest groups. */
  lemma LargestGroupsKept(rows: seq<Row>, iChng: seq<nat>, ids: seq<Rowid>,
                          nCol: nat, nKeyCol: nat, nEst: nat, mxSample: nat, seed: nat)
    requires 0 < nKeyCol <= nCol && 0 < mxSample && IsScan(rows, iChng, ids, nCol) && rows != []
    requires HasRoom(|rows|, nEst, mxSample)
    ensures var t := PushPrevious(Run(rows, iChng, ids, nCol, nKeyCol, nEst, mxSample, seed), 0);
            forall r: nat, l: nat | r < |rows| && l < nCol - 1 :: GroupKept(rows, t.a, mxSample, r, l)
  {
    var s := Run(rows, iChng, ids, nCol, nKeyCol, nEst, mxSample, seed);
    assert Scanning(s, rows, ids) && s.nCol == nCol && Sorted(rows, nCol) && WellFormed(s);
    RunFair(rows, iChng, ids, nCol, nKeyCol, nEst, mxSample, seed);
    SamplesExact(rows, iChng, ids, nCol, nKeyCol, nEst, mxSample, seed);
    var t := PushPrevious(s, 0);
    assert AllShaped(t.a, t.nCol) && t.nCol == nCol && t.mxSample == mxSample;
    hide Run, IsScan, HasRoom, Running, Scanning, Fair, PushPrevious, GroupKept, Exact, Sorted;
    PreviousFair(s, rows, ids, 0);
    forall r: nat, l: nat | r < |rows| && l < nCol - 1
      ensures GroupKept(rows, t.a, mxSample, r, l)
    {
      ChosenAtEnd(rows, ids, t, r, l);
    }
  }

  // -------------------- the candidates --------------------

  /** Of the rows of the open group of the first `i + 1` columns, none belongs to a larger group of one more column than
      the candidate `b`. */
  ghost predicate Largest(rows: seq<Row>, b: Sample, i: nat) {
    i + 1 < |b.anEq| && forall r: nat | Open(rows, r, i) :: CountEq(rows, rows[r], i + 2) <= b.anEq[i + 1]
  }

  ghost predicate AllLargest(s: Accum, rows: seq<Row>) {
    |s.aBest| == s.nCol && forall i: nat | i < s.nCol - 1 :: Largest(rows, s.aBest[i], i)
  }

  /** A row that starts a group is its only row. */
  lemma NewLargest(rows: seq<Row>, ids: seq<Rowid>, nCol: nat, y: Row, id: Rowid, c: nat, i: nat, x: Sample)
    requires 0 < nCol && CurrentOk(rows + [y], ids + [id], nCol, x) && i < nCol - 1 && |y| == nCol
    requires rows != [] ==> Sorted(rows, nCol) && LessAt(rows[|rows| - 1], y, c) && c <= i
    ensures Largest(rows + [y], x, i)
  {
    var all := rows + [y];
    forall r: nat | Open(all, r, i)
      ensures CountEq(all, all[r], i + 2) <= x.anEq[i + 1]
    {
      StartsAlone(rows, nCol, y, c, i, r);
      assert all[r] == y;
    }
  }

  lemma StartsAlone(rows: seq<Row>, nCol: nat, y: Row, c: nat, i: nat, r: nat)
    requires rows != [] ==> Sorted(rows, nCol) && LessAt(rows[|rows| - 1], y, c) && c <= i
    requires i < nCol && Open(rows + [y], r, i)
    ensures r == |rows|
  {
    if r < |rows| {
      assert (rows + [y])[r] == rows[r];
      CountsNew(rows, nCol, y, c, i + 1);
    }
  }

  /** A row that goes on with a group becomes the candidate unless its own group of one more column is no larger. */
  lemma NextLargest(rows: seq<Row>, ids: seq<Rowid>, nCol: nat, y: Row, id: Rowid, c: nat, i: nat, x: Sample, b: Sample)
    requires rows != [] && Sorted(rows, nCol) && LessAt(rows[|rows| - 1], y, c) && i < c && i < nCol - 1
    requires CurrentOk(rows + [y], ids + [id], nCol, x) && Largest(rows, b, i) && |b.anEq| == nCol && x.iCol == i
    ensures Largest(rows + [y], if IsBetterPost(x, b) then x else b, i)
  {
    var all, z := rows + [y], if IsBetterPost(x, b) then x else b;
    assert |x.anEq| == nCol;
    hide *;
    SortedPush(rows, nCol, y, c);
    CurrentCount(all, ids + [id], nCol, x, i + 1);
    BetterIsLarger(x, b, i);
    forall r: nat | Open(all, r, i)
      ensures r < |all| && CountEq(all, all[r], i + 2) <= z.anEq[i + 1]
    {
      OpenRow(all, r, i);
      GroupGrows(rows, nCol, y, c, i, r, x.anEq[i + 1], b);
    }
    LargestIs(all, z, i);
  }

  lemma CurrentCount(rows: seq<Row>, ids: seq<Rowid>, nCol: nat, x: Sample, i: nat)
    requires rows != [] && CurrentOk(rows, ids, nCol, x) && i < nCol && |x.anEq| == nCol
    ensures x.anEq[i] == CountEq(rows, rows[|rows| - 1], i + 1)
  {
    hide CountEq, CountLess;
  }

  lemma LargestIs(rows: seq<Row>, z: Sample, i: nat)
    requires i + 1 < |z.anEq|
    requires forall r: nat | Open(rows, r, i) :: r < |rows| && CountEq(rows, rows[r], i + 2) <= z.anEq[i + 1]
    ensures Largest(rows, z, i)
  {
    hide Open, CountEq;
  }

  lemma OpenRow(rows: seq<Row>, r: nat, i: nat)
    requires Open(rows, r, i)
    ensures r < |rows|
  {
  }

  lemma BetterIsLarger(x: Sample, b: Sample, i: nat)
    requires x.iCol == i && i + 1 < |x.anEq| == |b.anEq|
    ensures var z := if IsBetterPost(x, b) then x else b;
            x.anEq[i + 1] <= z.anEq[i + 1] && b.anEq[i + 1] <= z.anEq[i + 1]
  {
  }

  lemma GroupGrows(rows: seq<Row>, nCol: nat, y: Row, c: nat, i: nat, r: nat, n: nat, b: Sample)
    requires rows != [] && Sorted(rows + [y], nCol) && LessAt(rows[|rows| - 1], y, c) && i < c && i < nCol - 1
    requires n == CountEq(rows + [y], y, i + 2) && Open(rows + [y], r, i)
    requires Largest(rows, b, i)
    ensures var m := CountEq(rows + [y], (rows + [y])[r], i + 2); m <= n || m <= b.anEq[i + 1]
  {
    var all := rows + [y];
    if r < |rows| {
      assert all[r] == rows[r] && Open(rows, r, i);
      CountsKeep(rows, nCol, y, r, i + 2);
      if Same(rows[r], y, i + 2) {
        CountSame(all, rows[r], y, i + 2);
      }
    } else {
      assert all[r] == y;
    }
  }

  /** One row: the candidates below column `c` are what they were, or the row. */
  lemma UpdatedLargest(k: Accum, rows: seq<Row>, ids: seq<Rowid>, y: Row, id: Rowid, c: nat)
    requires Allocated(k) && CurrentOk(rows + [y], ids + [id], k.nCol, k.current) && |y| == k.nCol
    requires if rows == [] then c == 0 else Sorted(rows, k.nCol) && LessAt(rows[|rows| - 1], y, c)
    requires forall i: nat | i < c && i < k.nCol - 1 :: Largest(rows, k.aBest[i], i)
    ensures AllLargest(UpdateBest(k, c), rows + [y])
  {
    var u := UpdateBest(k, c);
    hide CurrentOk, Largest, Sorted, LessAt, IsBetterPost;
    forall i: nat | i < k.nCol - 1
      ensures Largest(rows + [y], u.aBest[i], i)
    {
      UpdatedAt(k, k.current.(iCol := i), k.aBest[i], rows, ids, y, id, c, i);
    }
  }

  lemma UpdatedAt(k: Accum, x: Sample, b: Sample, rows: seq<Row>, ids: seq<Rowid>, y: Row, id: Rowid, c: nat, i: nat)
    requires CurrentOk(rows + [y], ids + [id], k.nCol, k.current) && |y| == k.nCol && i < k.nCol - 1
    requires if rows == [] then c == 0 else Sorted(rows, k.nCol) && LessAt(rows[|rows| - 1], y, c)
    requires i < c ==> Largest(rows, b, i)
    requires x == k.current.(iCol := i) && |b.anEq| == k.nCol && |x.anEq| == |b.anEq|
    ensures Largest(rows + [y], if i >= c || IsBetterPost(x, b) then x else b, i)
  {
    SameCurrent(rows + [y], ids + [id], k.nCol, k.current, x);
    hide *;
    if i >= c {
      NewLargest(rows, ids, k.nCol, y, id, c, i, x);
    } else {
      NextLargest(rows, ids, k.nCol, y, id, c, i, x, b);
    }
  }

  lemma SameCurrent(rows: seq<Row>, ids: seq<Rowid>, nCol: nat, x: Sample, y: Sample)
    requires CurrentOk(rows, ids, nCol, x) && y == x.(iCol := y.iCol) && y.iCol < nCol
    ensures CurrentOk(rows, ids, nCol, y)
  {
    hide CountEq, CountLess, LesserPrefixes;
    assert RowOf(y) == RowOf(x);
  }

  lemma RowLargest(s: Accum, rows: seq<Row>, ids: seq<Rowid>, y: Row, id: Rowid, c: nat, nEst: nat, mxSample: nat)
    requires WellFormed(s) && Ready(s, rows, ids, y, c, nEst, mxSample)
    requires rows != [] ==> AllLargest(s, rows)
    ensures AllLargest(PushRow(s, c, id), rows + [y])
  {
    ArrivalIs(s, rows, ids, y, id, c, nEst, mxSample);
    RowIs(s, rows, y, c, nEst, mxSample);
    var t := Arrival(s, c, id);
    assert CurrentOk(rows + [y], ids + [id], t.nCol, t.current) && t.nCol == s.nCol;
    hide Ready, CurrentOk, Kept, MinOk, Largest, Sorted, LessAt, KeepPeriodic, UpdateBest, Arrive, PushPrevious;
    KeepPeriodicBest(t);
    forall i: nat | i < c && i < s.nCol - 1
      ensures Largest(rows, t.aBest[i], i)
    {
      ArrivalBest(s, c, id, i);
    }
    UpdatedLargest(KeepPeriodic(t), rows, ids, y, id, c);
  }

  lemma RowIs(s: Accum, rows: seq<Row>, y: Row, c: nat, nEst: nat, mxSample: nat)
    requires exists ids: seq<Rowid> :: Ready(s, rows, ids, y, c, nEst, mxSample)
    ensures |y| == s.nCol && (rows == [] <==> s.nRow == 0)
    ensures if rows == [] then c == 0 else Sorted(rows, s.nCol) && LessAt(rows[|rows| - 1], y, c)
  {
    hide CurrentOk, Kept, MinOk, AllBestOk;
  }

  lemma KeepPeriodicBest(t: Accum)
    requires WellFormed(t)
    ensures KeepPeriodic(t).aBest == t.aBest && KeepPeriodic(t).nCol == t.nCol && KeepPeriodic(t).current == t.current
  {
    hide Insert;
  }

  lemma ArrivalBest(s: Accum, c: nat, id: Rowid, i: nat)
    requires WellFormed(s) && i < c && i < s.nCol - 1
    ensures Arrival(s, c, id).aBest[i] == s.aBest[i]
  {
    CandidateBelow(s, c, i);
    hide PushPrevious, WellFormed;
  }

  /** After any scan, the candidate of every open group is a row of a largest group of one more column in it. */
  lemma {:induction false} CandidatesLargest(rows: seq<Row>, iChng: seq<nat>, ids: seq<Rowid>,
                                             nCol: nat, nKeyCol: nat, nEst: nat, mxSample: nat, seed: nat)
    requires 0 < nKeyCol <= nCol && 0 < mxSample && IsScan(rows, iChng, ids, nCol) && rows != []
    requires HasRoom(|rows|, nEst, mxSample)
    ensures AllLargest(Run(rows, iChng, ids, nCol, nKeyCol, nEst, mxSample, seed), rows)
  {
    hide *;
    var n := |rows| - 1;
    RunAfter(rows, iChng, ids, nCol, nKeyCol, nEst, mxSample, seed);
    var s := Run(rows[..n], iChng[..n], ids[..n], nCol, nKeyCol, nEst, mxSample, seed);
    if n > 0 {
      CandidatesLargest(rows[..n], iChng[..n], ids[..n], nCol, nKeyCol, nEst, mxSample, seed);
    }
    assert rows == rows[..n] + [rows[n]];
    RowLargest(s, rows[..n], ids[..n], rows[n], ids[n], iChng[n], nEst, mxSample);
  }

  /** The last row of a scan, the first one too. */
  lemma RunAfter(rows: seq<Row>, iChng: seq<nat>, ids: seq<Rowid>,
                 nCol: nat, nKeyCol: nat, nEst: nat, mxSample: nat, seed: nat)
    requires 0 < nKeyCol <= nCol && 0 < mxSample && IsScan(rows, iChng, ids, nCol) && rows != []
    requires HasRoom(|rows|, nEst, mxSample)
    ensures var n := |rows| - 1;
            IsScan(rows[..n], iChng[..n], ids[..n], nCol) && HasRoom(n, nEst, mxSample) && |iChng| == |ids| == |rows| &&
            var s := Run(rows[..n], iChng[..n], ids[..n], nCol, nKeyCol, nEst, mxSample, seed);
            WellFormed(s) && s.nCol == nCol && Ready(s, rows[..n], ids[..n], rows[n], iChng[n], nEst, mxSample) &&
            Run(rows, iChng, ids, nCol, nKeyCol, nEst, mxSample, seed) == PushRow(s, iChng[n], ids[n])
  {
    var n := |rows| - 1;
    assert |iChng| == |ids| == |rows|;
    RunLonger(rows, iChng, ids, nCol, nKeyCol, nEst, mxSample, seed);
    var s := Run(rows[..n], iChng[..n], ids[..n], nCol, nKeyCol, nEst, mxSample, seed);
    assert n == 0 ==> rows[..n] == [] && s == Init(nCol, nKeyCol, nEst, mxSample, seed) && s.iPrn == seed;
    hide Run, Running, Ready, Init, PushRow, WellFormed, IsScan, HasRoom;
    LastRow(s, rows, iChng, ids, nCol, nEst, mxSample, n);
  }
}
