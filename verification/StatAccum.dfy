/** The accumulator as the C code keeps it: sample structures whose count arrays are buffers of one
    allocation, updated in place. A pointer to a buffer is its index in `mem`. Every method is the
    corresponding step of `StatSpec`. */
module StatAccumulator {
  import opened IndexRows
  import opened StatSpec
  import opened Wrappers
  import opened StatInvariant
  import opened StatTheorems
  import opened StatChoice
  import opened StatCounts

  /** A sample structure: three pointers to buffers, and plain fields. */
  datatype Slot = Slot(anEq: nat, anLt: nat, anDLt: nat, rowid: Rowid,
                       isPSample: bool, iCol: nat, iHash: nat)
  {
    ghost predicate Proper(nMem: nat, nCol: nat) {
      anEq < nMem && anLt < nMem && anDLt < nMem && iCol < nCol &&
      anEq != anLt && anEq != anDLt && anLt != anDLt
    }
  }

  /** The structures have no buffer in common. */
  ghost predicate Apart(x: Slot, y: Slot) {
    x.anEq != y.anEq && x.anEq != y.anLt && x.anEq != y.anDLt &&
    x.anLt != y.anEq && x.anLt != y.anLt && x.anLt != y.anDLt &&
    x.anDLt != y.anEq && x.anDLt != y.anLt && x.anDLt != y.anDLt
  }

  /** The sample in a structure and its buffers. */
  function View(mem: seq<seq<nat>>, x: Slot): Sample
    requires x.anEq < |mem| && x.anLt < |mem| && x.anDLt < |mem|
  {
    Sample(mem[x.anEq], mem[x.anLt], mem[x.anDLt], x.rowid, x.isPSample, x.iCol, x.iHash)
  }

  function Views(mem: seq<seq<nat>>, slots: seq<Slot>): (v: seq<Sample>)
    requires forall i | 0 <= i < |slots| :: slots[i].anEq < |mem| && slots[i].anLt < |mem| && slots[i].anDLt < |mem|
    ensures |v| == |slots|
  {
    seq(|slots|, i requires 0 <= i < |slots| => View(mem, slots[i]))
  }

  /** Only buffers of `x` have changed. */
  ghost predicate OnlyBufs(m: seq<seq<nat>>, m': seq<seq<nat>>, x: Slot) {
    |m| == |m'| && forall p | 0 <= p < |m| && p != x.anEq && p != x.anLt && p != x.anDLt :: m'[p] == m[p]
  }

  /** Structures that own their buffers. */
  ghost predicate Owners(slots: seq<Slot>, nMem: nat, nCol: nat) {
    (forall i | 0 <= i < |slots| :: slots[i].Proper(nMem, nCol)) &&
    (forall i, j | 0 <= i < |slots| && 0 <= j < |slots| && i != j :: Apart(slots[i], slots[j]))
  }

  ghost predicate ApartFromAll(slots: seq<Slot>, x: Slot) {
    forall i | 0 <= i < |slots| :: Apart(slots[i], x)
  }

  /** Entry `m` of the first `n` is removed, and the entry that becomes free gets its buffers. */
  ghost function Removed(s: seq<Slot>, m: nat, n: nat): (t: seq<Slot>)
    requires m < n <= |s|
    ensures |t| == |s|
  {
    s[..m] + s[m + 1..n] + [s[n - 1].(anEq := s[m].anEq, anLt := s[m].anLt, anDLt := s[m].anDLt)] + s[n..]
  }

  ghost function Source(i: nat, m: nat, n: nat): nat {
    if i < m || n <= i then i else if i < n - 1 then i + 1 else m
  }

  lemma RemovalKeepsOwners(s: seq<Slot>, m: nat, n: nat, nMem: nat, nCol: nat, x: Slot)
    requires m < n <= |s| && Owners(s, nMem, nCol) && ApartFromAll(s, x)
    ensures Owners(Removed(s, m, n), nMem, nCol) && ApartFromAll(Removed(s, m, n), x)
  {
    var t := Removed(s, m, n);
    forall i | 0 <= i < |t| ensures var o := s[Source(i, m, n)];
      t[i].anEq == o.anEq && t[i].anLt == o.anLt && t[i].anDLt == o.anDLt && t[i].iCol < nCol {
    }
    forall i, j | 0 <= i < |t| && 0 <= j < |t| && i != j ensures Apart(t[i], t[j]) {
      assert Apart(s[Source(i, m, n)], s[Source(j, m, n)]);
    }
  }

  lemma RemovalKeepsApart(s: seq<Slot>, m: nat, n: nat, x: Slot)
    requires m < n <= |s| && ApartFromAll(s[..n], x)
    ensures ApartFromAll(Removed(s, m, n)[..n], x)
  {
    var t := Removed(s, m, n);
    forall i | 0 <= i < n ensures Apart(t[i], x) {
      assert Apart(s[..n][Source(i, m, n)], x);
    }
  }

  /** Plain fields do not matter for the ownership of buffers. */
  lemma FieldsKeepOwners(s: seq<Slot>, k: nat, x: Slot, nMem: nat, nCol: nat, y: Slot)
    requires k < |s| && Owners(s, nMem, nCol) && ApartFromAll(s, y) && x.iCol < nCol
    requires x.anEq == s[k].anEq && x.anLt == s[k].anLt && x.anDLt == s[k].anDLt
    ensures Owners(s[k := x], nMem, nCol) && ApartFromAll(s[k := x], y)
  {
    assert Apart(s[k], y);
    forall i | 0 <= i < |s| && i != k ensures Apart(s[i], x) && Apart(x, s[i]) {
      assert Apart(s[i], s[k]) && Apart(s[k], s[i]);
    }
  }

  lemma RemovedViews(mem: seq<seq<nat>>, s: seq<Slot>, m: nat, n: nat, nCol: nat)
    requires m < n <= |s| && Owners(s, |mem|, nCol)
    ensures forall i | 0 <= i < n - 1 :: Removed(s, m, n)[i].Proper(|mem|, nCol)
    ensures Views(mem, Removed(s, m, n)[..n - 1]) == Views(mem, s[..n])[..m] + Views(mem, s[..n])[m + 1..]
    ensures Removed(s, m, n)[n..] == s[n..]
  {
  }

  /** Writing structure `k` and its buffers changes the view of no other structure. */
  ghost predicate OneWritten(m: seq<seq<nat>>, m': seq<seq<nat>>, s: seq<Slot>, s': seq<Slot>, k: nat, nCol: nat) {
    Owners(s, |m|, nCol) && Owners(s', |m|, nCol) && |s| == |s'| && k < |s| && OnlyBufs(m, m', s[k]) &&
    forall i | 0 <= i < |s| && i != k :: s'[i] == s[i]
  }

  lemma ViewsAfter(m: seq<seq<nat>>, m': seq<seq<nat>>, s: seq<Slot>, s': seq<Slot>, k: nat, lo: nat, nCol: nat)
    requires OneWritten(m, m', s, s', k, nCol) && k < lo <= |s|
    ensures Views(m', s'[lo..]) == Views(m, s[lo..])
  {
    hide Apart;
    forall i | lo <= i < |s| ensures View(m', s'[i]) == View(m, s[i]) {
      ViewApart(m, m', s[k], s[i], nCol);
    }
  }

  lemma ViewsAppended(m: seq<seq<nat>>, m': seq<seq<nat>>, s: seq<Slot>, s': seq<Slot>, k: nat, nCol: nat)
    requires OneWritten(m, m', s, s', k, nCol)
    ensures Views(m', s'[..k + 1]) == Views(m, s[..k]) + [View(m', s'[k])]
  {
    hide Apart;
    forall i | 0 <= i < k ensures View(m', s'[i]) == View(m, s[i]) {
      ViewApart(m, m', s[k], s[i], nCol);
    }
  }

  lemma ViewsUpdated(m: seq<seq<nat>>, m': seq<seq<nat>>, s: seq<Slot>, s': seq<Slot>, k: nat, lo: nat, hi: nat,
                     nCol: nat)
    requires OneWritten(m, m', s, s', k, nCol) && lo <= k < hi <= |s|
    ensures Views(m', s'[lo..hi]) == Views(m, s[lo..hi])[k - lo := View(m', s'[k])]
  {
    hide Apart;
    forall i | lo <= i < hi && i != k ensures View(m', s'[i]) == View(m, s[i]) {
      ViewApart(m, m', s[k], s[i], nCol);
    }
  }

  lemma ViewsBefore(m: seq<seq<nat>>, m': seq<seq<nat>>, s: seq<Slot>, s': seq<Slot>, k: nat, hi: nat, nCol: nat)
    requires OneWritten(m, m', s, s', k, nCol) && hi <= k
    ensures Views(m', s'[..hi]) == Views(m, s[..hi])
  {
    hide Apart;
    forall i | 0 <= i < hi ensures View(m', s'[i]) == View(m, s[i]) {
      ViewApart(m, m', s[k], s[i], nCol);
    }
  }

  /** Writing a buffer of `current`, which no structure of `s` uses. */
  lemma ViewsUntouched(m: seq<seq<nat>>, m': seq<seq<nat>>, s: seq<Slot>, x: Slot, lo: nat, hi: nat, nCol: nat)
    requires Owners(s, |m|, nCol) && ApartFromAll(s, x) && OnlyBufs(m, m', x) && lo <= hi <= |s|
    ensures Views(m', s[lo..hi]) == Views(m, s[lo..hi])
  {
  }

  lemma ApartUse(x: Slot, y: Slot)
    requires Apart(x, y)
    ensures x.anEq != y.anEq && x.anEq != y.anLt && x.anEq != y.anDLt
  {
  }

  lemma ViewApart(m: seq<seq<nat>>, m': seq<seq<nat>>, x: Slot, y: Slot, nCol: nat)
    requires y.Proper(|m|, nCol) && OnlyBufs(m, m', x) && Apart(x, y)
    ensures View(m', y) == View(m, y)
  {
  }

  /** The loop of `sampleIsBetterPost` over the buffers of two samples. */
  method SampleIsBetterPost(pNew: Sample, pOld: Sample) returns (better: bool)
    requires |pNew.anEq| == |pOld.anEq|
    ensures better == IsBetterPost(pNew, pOld)
  {
    var i := pNew.iCol + 1;
    while i < |pNew.anEq|
      invariant pNew.iCol + 1 <= i
      invariant BetterFrom(pNew, pOld, i) == IsBetterPost(pNew, pOld)
    {
      if pNew.anEq[i] > pOld.anEq[i] { return true; }
      if pNew.anEq[i] < pOld.anEq[i] { return false; }
      i := i + 1;
    }
    return pNew.iHash > pOld.iHash;
  }

  method SampleIsBetter(pNew: Sample, pOld: Sample) returns (better: bool)
    requires pNew.iCol < |pNew.anEq| == |pOld.anEq| && pOld.iCol < |pOld.anEq|
    ensures better == IsBetter(pNew, pOld)
  {
    var nEqNew, nEqOld := pNew.anEq[pNew.iCol], pOld.anEq[pOld.iCol];
    if nEqNew > nEqOld { return true; }
    if nEqNew == nEqOld {
      if pNew.iCol < pOld.iCol { return true; }
      if pNew.iCol == pOld.iCol {
        better := SampleIsBetterPost(pNew, pOld);
        return better;
      }
    }
    return false;
  }

  /** How `statInit` cuts the allocation: `current` has the first three buffers. */
  function FirstSlot(i: nat, mxSample: nat): Slot {
    Slot(3 * i + 3, 3 * i + 4, 3 * i + 5, Integer(0), false, if i < mxSample then 0 else i - mxSample, 0)
  }

  lemma FirstSlotsOwn(s: seq<Slot>, mxSample: nat, nCol: nat, x: Slot)
    requires 0 < nCol && |s| == mxSample + nCol && forall i | 0 <= i < |s| :: s[i] == FirstSlot(i, mxSample)
    requires x.anEq < 3 && x.anLt < 3 && x.anDLt < 3
    ensures Owners(s, 3 * (mxSample + nCol + 1), nCol) && ApartFromAll(s, x)
  {
  }

  lemma FirstViews(mem: seq<seq<nat>>, s: seq<Slot>, mxSample: nat, nCol: nat, x: Slot)
    requires |mem| == 3 * (mxSample + nCol + 1) && Owners(s, |mem|, nCol)
    requires forall p | 0 <= p < |mem| :: mem[p] == seq(nCol, _ => 0)
    requires |s| == mxSample + nCol && forall i | 0 <= i < |s| :: s[i] == FirstSlot(i, mxSample)
    requires x == Slot(1, 2, 0, Integer(0), false, 0, 0)
    ensures View(mem, x) == EmptySample(nCol, 0)
    ensures Views(mem, s[mxSample..]) == seq(nCol, i requires 0 <= i < nCol => EmptySample(nCol, i))
    ensures Views(mem, s[..0]) == []
  {
  }

  class StatAccum {
    const nEst: nat
    const nCol: nat
    const nKeyCol: nat
    const nPSample: nat
    const mxSample: nat
    var nRow: nat
    var current: Slot
    var iPrn: nat
    var iMin: int
    var nSample: nat
    var nMaxEqZero: nat
    var iGet: int
    const a: array<Slot>         // `mxSample` retained samples, and then the `nCol` entries of aBest[]
    const mem: array<seq<nat>>   // the buffers behind all structures

    /** stat_init(): one allocation is cut into buffers, `current` first. */
    constructor (nCol: nat, nKeyCol: nat, nEst: nat, mxSample: nat)
      requires 0 < nKeyCol <= nCol && 0 < mxSample
      ensures Valid() && fresh(this) && fresh(a) && fresh(mem) && iGet == -1 && nRow == 0 && !current.isPSample &&
              this.nCol == nCol
      ensures State() == Init(nCol, nKeyCol, nEst, mxSample, Seed(nCol, nEst))
    {
      this.nEst, this.nRow, this.nCol, this.nKeyCol := nEst, 0, nCol, nKeyCol;
      this.mxSample, this.nPSample, this.iGet := mxSample, SampleInterval(nEst, mxSample), -1;
      this.iMin, this.nSample, this.nMaxEqZero, this.iPrn := 0, 0, 0, Seed(nCol, nEst);
      current := Slot(1, 2, 0, Integer(0), false, 0, 0);
      a := new Slot[mxSample + nCol](i requires 0 <= i < mxSample + nCol => FirstSlot(i, mxSample));
      mem := new seq<nat>[3 * (mxSample + nCol + 1)](_ => seq(nCol, _ => 0));
      new;
      hide Apart, FirstSlot, View, Views;
      FirstSlotsOwn(a[..], mxSample, nCol, current);
      FirstViews(mem[..], a[..], mxSample, nCol, current);
    }

    /** Every structure has buffers of its own, of the right size. */
    ghost predicate Valid()
      reads this, a, mem
    {
      0 < nKeyCol <= nCol && 0 < nPSample && 0 < mxSample && nSample <= mxSample &&
      a.Length == mxSample + nCol &&
      Owners(a[..], mem.Length, nCol) && current.Proper(mem.Length, nCol) && ApartFromAll(a[..], current) &&
      (forall p | 0 <= p < mem.Length :: |mem[p]| == nCol)
    }

    /** The accumulator as a value. The flags of `current` are scratch. */
    ghost function State(): Accum
      requires Valid()
      reads this, a, mem
    {
      Accum(nEst, nRow, nCol, nKeyCol, View(mem[..], current).(isPSample := false, iCol := 0), nPSample, mxSample, iPrn,
            Views(mem[..], a[..][mxSample..]), iMin, nMaxEqZero, Views(mem[..], a[..][..nSample]))
    }

    lemma SampleAt(k: nat)
      requires Valid() && k < nSample
      ensures a[k].Proper(mem.Length, nCol) && Shaped(View(mem[..], a[k]), nCol)
      ensures AllShaped(State().a, nCol) && State().a[k] == View(mem[..], a[k])
    {
      hide Apart, ApartFromAll;
    }

    /** Copy `from` into structure `k`, which keeps its own buffers. */
    method SampleCopy(k: nat, from: Slot)
      requires Valid() && k < a.Length && from.Proper(mem.Length, nCol) && Apart(a[k], from)
      modifies a, mem
      ensures Valid()
      ensures View(mem[..], a[k]) == old(View(mem[..], from))
      ensures a[k].anEq == old(a[k].anEq) && a[k].anLt == old(a[k].anLt) && a[k].anDLt == old(a[k].anDLt)
      ensures forall i | 0 <= i < a.Length && i != k :: a[i] == old(a[i])
      ensures OnlyBufs(old(mem[..]), mem[..], old(a[k]))
    {
      var to := a[k];
      mem[to.anEq] := mem[from.anEq];
      mem[to.anLt] := mem[from.anLt];
      mem[to.anDLt] := mem[from.anDLt];
      a[k] := from.(anEq := to.anEq, anLt := to.anLt, anDLt := to.anDLt);
    }

    /** Choose the sample to evict next. */
    method FindNewMin()
      requires Valid()
      modifies this`iMin
      ensures Valid() && State() == NewMin(old(State()))
    {
      hide Apart, ApartFromAll, Owners, IsBetter, Views;
      if nSample >= mxSample {
        ghost var samples := State().a;
        SampleAt(0);
        var m, i := -1, 0;
        while i < mxSample
          invariant 0 <= i <= mxSample && m == FindMin(nCol, samples, i)
        {
          SampleAt(i);
          if m >= 0 { SampleAt(m); }
          if !a[i].isPSample {
            var worse := false;
            if m >= 0 {
              worse := SampleIsBetter(View(mem[..], a[m]), View(mem[..], a[i]));
            }
            if m < 0 || worse {
              m := i;
            }
          }
          i := i + 1;
        }
        iMin := m;
      }
    }

    /** Look for retained samples that share the new sample's group. */
    method FindSharing(iCol: nat) returns (f: Found)
      requires Valid() && iCol < nCol
      ensures f == ScanSharing(nCol, State().a, iCol, nSample, Nothing)
    {
      hide Apart, ApartFromAll, Owners, IsBetter, Views;
      f := Nothing;
      var i := nSample;
      ghost var samples := State().a;
      assert AllShaped(samples, nCol) by { if nSample > 0 { SampleAt(0); } }
      while i > 0
        invariant 0 <= i <= nSample && !f.Periodic?
        invariant f.Sharing? ==> f.k < nSample && !samples[f.k].isPSample
        invariant ScanSharing(nCol, samples, iCol, i, f) == ScanSharing(nCol, samples, iCol, nSample, Nothing)
      {
        i := i - 1;
        SampleAt(i);
        if mem[a[i].anEq][iCol] == 0 {
          if a[i].isPSample {
            return Periodic;
          }
          var better := true;
          if f.Sharing? {
            SampleAt(f.k);
            better := SampleIsBetter(View(mem[..], a[i]), View(mem[..], a[f.k]));
          }
          if better {
            f := Sharing(i);
          }
        }
      }
    }

    /** The memmove of an eviction: the structure that becomes free gets the removed one's buffers. */
    method RemoveSlot(m: nat, n: nat)
      requires m < n <= a.Length
      modifies a
      ensures a[..] == Removed(old(a[..]), m, n)
    {
      var pMin := a[m];
      forall k | m <= k < n - 1 { a[k] := a[k + 1]; }
      a[n - 1] := a[n - 1].(anEq := pMin.anEq, anLt := pMin.anLt, anDLt := pMin.anDLt);
    }

    /** Remove sample `iMin`. */
    method EvictMin()
      requires Valid() && nSample == mxSample && 0 <= iMin < mxSample
      requires WellFormed(State())
      modifies this`nSample, a
      ensures Valid() && nSample == mxSample - 1
      ensures State() == old(State()).(a := Evict(old(State())))
      ensures a[..] == Removed(old(a[..]), iMin, mxSample)
    {
      hide Allocated, Apart, Removed;
      ghost var before := a[..];
      RemoveSlot(iMin, mxSample);
      nSample := mxSample - 1;
      RemovalKeepsOwners(before, iMin, mxSample, mem.Length, nCol, current);
      RemovedViews(mem[..], before, iMin, mxSample, nCol);
    }

    /** Store a sample at the end of the retained ones; its first `nEqZero` counts are unknown. */
    method AppendSample(pNew: Slot, nEqZero: nat)
      requires Valid() && nSample < mxSample && pNew.Proper(mem.Length, nCol)
      requires ApartFromAll(a[..][..mxSample], pNew)
      modifies this`nSample, a, mem
      ensures Valid() && nSample == old(nSample) + 1
      ensures State() == old(State()).(a := old(State()).a + [ZeroFirst(old(View(mem[..], pNew)), nEqZero)])
    {
      hide Apart;
      ghost var m0, s0 := mem[..], a[..];
      assert a[..][..mxSample][nSample] == a[nSample];
      SampleCopy(nSample, pNew);
      var p := a[nSample].anEq;
      var counts := mem[p];
      mem[p] := seq(nCol, i requires 0 <= i < nCol => if i < nEqZero then 0 else counts[i]);
      assert View(mem[..], a[nSample]) == ZeroFirst(old(View(mem[..], pNew)), nEqZero);
      ViewsAfter(m0, mem[..], s0, a[..], nSample, mxSample, nCol);
      ViewsAppended(m0, mem[..], s0, a[..], nSample, nCol);
      ViewApart(m0, mem[..], s0[nSample], current, nCol);
      nSample := nSample + 1;
    }

    /** Raise the priority of sample `k`, and fill in the count of its group. */
    method UpgradeSample(k: nat, pNew: Slot)
      requires Valid() && k < nSample && pNew.Proper(mem.Length, nCol)
      modifies a, mem
      ensures Valid()
      ensures var s := old(State());
              State() == s.(a := s.a[k := Upgrade(s.a[k], old(View(mem[..], pNew)))])
    {
      hide Apart;
      ghost var m0, s0 := mem[..], a[..];
      var p := a[k].anEq;
      var n := mem[pNew.anEq][pNew.iCol];
      a[k] := a[k].(iCol := pNew.iCol);
      mem[p] := mem[p][pNew.iCol := n];
      FieldsKeepOwners(s0, k, a[k], |m0|, nCol, current);
      assert a[..] == s0[k := a[k]];
      ViewsAfter(m0, mem[..], s0, a[..], k, mxSample, nCol);
      ViewsUpdated(m0, mem[..], s0, a[..], k, 0, nSample, nCol);
      ViewApart(m0, mem[..], s0[k], current, nCol);
    }

    /** Evict if the array is full, store the sample, and choose the next one to evict. */
    method AddSample(pNew: Slot, nEqZero: nat)
      requires Valid() && WellFormed(State()) && pNew.Proper(mem.Length, nCol)
      requires ApartFromAll(a[..][..mxSample], pNew)
      modifies this`nSample, this`iMin, a, mem
      ensures Valid() && State() == Add(old(State()), old(View(mem[..], pNew)), nEqZero)
    {
      hide Allocated, Owners, Apart, ApartFromAll, Removed, NewMin, View, Views;
      if nSample >= mxSample {
        RemovalKeepsApart(a[..], iMin, mxSample, pNew);
        EvictMin();
      }
      AppendSample(pNew, nEqZero);
      FindNewMin();
    }

    method SampleInsert(pNew: Slot, nEqZero: nat)
      requires Valid() && WellFormed(State()) && pNew.Proper(mem.Length, nCol)
      requires ApartFromAll(a[..][..mxSample], pNew)
      modifies this`nSample, this`nMaxEqZero, this`iMin, a, mem
      ensures Valid()
      ensures State() == Insert(old(State()), old(View(mem[..], pNew)), nEqZero)
    {
      hide Owners, Apart, ApartFromAll, Add, NewMin, Upgrade;
      if nEqZero > nMaxEqZero {
        nMaxEqZero := nEqZero;
      }
      if !pNew.isPSample {
        var f := FindSharing(pNew.iCol);
        if f.Periodic? {
          return;
        }
        if f.Sharing? {
          UpgradeSample(f.k, pNew);
          FindNewMin();
          return;
        }
      }
      AddSample(pNew, nEqZero);
    }

    /** The candidate of level `i` gets the count of its group. */
    method SetBestCount(i: nat)
      requires Valid() && i < nCol
      modifies mem
      ensures Valid()
      ensures var s := old(State());
              State() == s.(aBest := s.aBest[i := s.aBest[i].(anEq := s.aBest[i].anEq[i := s.current.anEq[i]])])
    {
      hide Apart;
      ghost var m0, s0 := mem[..], a[..];
      var k := mxSample + i;
      var p := a[k].anEq;
      mem[p] := mem[p][i := mem[current.anEq][i]];
      assert s0[mxSample..] == s0[mxSample..a.Length];
      ViewsUpdated(m0, mem[..], s0, a[..], k, mxSample, a.Length, nCol);
      ViewsBefore(m0, mem[..], s0, a[..], k, nSample, nCol);
      ViewApart(m0, mem[..], s0[k], current, nCol);
    }

    lemma BestAt(i: nat)
      requires Valid() && i < nCol
      ensures a[mxSample + i].Proper(mem.Length, nCol) && Shaped(View(mem[..], a[mxSample + i]), nCol)
      ensures |State().aBest| == nCol && State().aBest[i] == View(mem[..], a[mxSample + i])
      ensures ApartFromAll(a[..][..mxSample], a[mxSample + i])
    {
    }

    method PushBestStep(i: nat)
      requires Valid() && WellFormed(State()) && i < nCol
      modifies this`nSample, this`nMaxEqZero, this`iMin, a, mem
      ensures Valid() && State() == PushBestAt(old(State()), i)
    {
      hide Owners, Apart, ApartFromAll, Insert, IsBetter, Views;
      SetBestCount(i);
      BestAt(i);
      var wanted := nSample < mxSample;
      if !wanted {
        SampleAt(iMin);
        wanted := SampleIsBetter(View(mem[..], a[mxSample + i]), View(mem[..], a[iMin]));
      }
      if wanted {
        SampleInsert(a[mxSample + i], i);
      }
    }

    /** Fill in the counts of one sample that are still unknown. */
    method FillSample(k: nat, c: nat)
      requires Valid() && k < nSample && c <= nCol
      modifies mem
      ensures Valid()
      ensures var s := old(State()); State() == s.(a := s.a[k := FillOne(s.a[k], s.current.anEq, c)])
    {
      hide Apart;
      ghost var m0 := mem[..];
      assert Apart(a[k], current);
      var p := a[k].anEq;
      assert p != current.anEq && p != current.anLt && p != current.anDLt by { ApartUse(a[k], current); }
      var j := c;
      while j < nCol
        invariant c <= j <= nCol
        invariant forall q | 0 <= q < mem.Length && q != p :: mem[q] == m0[q]
        invariant |mem[p]| == nCol && forall i | 0 <= i < nCol ::
                    mem[p][i] == if c <= i < j && m0[p][i] == 0 then m0[current.anEq][i] else m0[p][i]
      {
        if mem[p][j] == 0 {
          mem[p] := mem[p][j := mem[current.anEq][j]];
        }
        j := j + 1;
      }
      ViewsAfter(m0, mem[..], a[..], a[..], k, mxSample, nCol);
      ViewsUpdated(m0, mem[..], a[..], a[..], k, 0, nSample, nCol);
      ViewApart(m0, mem[..], a[k], current, nCol);
      assert View(mem[..], a[k]) == FillOne(View(m0, a[k]), m0[current.anEq], c);
    }

    method SamplePushPrevious(iChng: nat)
      requires Valid() && WellFormed(State()) && iChng < nCol
      modifies this`nSample, this`nMaxEqZero, this`iMin, a, mem
      ensures Valid() && State() == PushPrevious(old(State()), iChng)
    {
      hide Owners, Apart, ApartFromAll, PushBestAt, WellFormed, Views, FillOne;
      ghost var s0 := State();
      var i := nCol - 2;
      while i >= iChng
        invariant i < nCol
        invariant Valid() && WellFormed(State())
        invariant PushBest(State(), i, iChng) == PushBest(s0, nCol - 2, iChng)
      {
        PushBestAtWellFormed(State(), i);
        PushBestStep(i);
        i := i - 1;
      }
      if iChng < nMaxEqZero {
        FillAll(iChng);
        nMaxEqZero := iChng;
      }
    }

    /** Fill in the unknown counts of all samples, from the last one to the first. */
    method FillAll(c: nat)
      requires Valid() && c < nCol && WellFormed(State())
      modifies mem
      ensures Valid()
      ensures var s := old(State());
              State() == s.(a := seq(|s.a|, k requires 0 <= k < |s.a| => FillOne(s.a[k], s.current.anEq, c)))
    {
      hide Owners, Apart, ApartFromAll, Views, FillOne;
      ghost var s := State();
      var i := nSample;
      while i > 0
        invariant 0 <= i <= nSample && Valid() && State() == s.(a := State().a) && |State().a| == |s.a|
        invariant forall k | 0 <= k < i :: State().a[k] == s.a[k]
        invariant forall k | i <= k < nSample :: State().a[k] == FillOne(s.a[k], s.current.anEq, c)
      {
        i := i - 1;
        FillSample(i, c);
      }
    }

    /** The counts of the row that arrives. */
    method AdvanceCounts(iChng: nat)
      requires Valid() && iChng < nCol
      modifies mem
      ensures Valid()
      ensures var s := old(State()); State() == s.(current := NextCounts(s.current, nRow, iChng))
    {
      hide Apart;
      ghost var m0 := mem[..];
      var e, l, d := current.anEq, current.anLt, current.anDLt;
      var i := 0;
      if nRow == 0 {
        while i < nCol
          invariant 0 <= i <= nCol
          invariant forall q | 0 <= q < mem.Length && q != e :: mem[q] == m0[q]
          invariant |mem[e]| == nCol && forall j | 0 <= j < i :: mem[e][j] == 1
        {
          mem[e] := mem[e][i := 1];
          i := i + 1;
        }
      } else {
        while i < iChng
          invariant 0 <= i <= iChng
          invariant forall q | 0 <= q < mem.Length && q != e :: mem[q] == m0[q]
          invariant |mem[e]| == nCol
          invariant forall j | 0 <= j < nCol :: mem[e][j] == if j < i then m0[e][j] + 1 else m0[e][j]
        {
          mem[e] := mem[e][i := mem[e][i] + 1];
          i := i + 1;
        }
        while i < nCol
          invariant iChng <= i <= nCol
          invariant forall q | 0 <= q < mem.Length && q != e && q != l && q != d :: mem[q] == m0[q]
          invariant |mem[e]| == |mem[l]| == |mem[d]| == nCol
          invariant forall j | 0 <= j < nCol ::
                      mem[e][j] == if j < iChng then m0[e][j] + 1 else if j < i then 1 else m0[e][j]
          invariant forall j | 0 <= j < nCol ::
                      mem[l][j] == if iChng <= j < i then m0[l][j] + m0[e][j] else m0[l][j]
          invariant forall j | 0 <= j < nCol ::
                      mem[d][j] == if iChng <= j < i then m0[d][j] + 1 else m0[d][j]
        {
          mem[d] := mem[d][i := mem[d][i] + 1];
          mem[l] := mem[l][i := mem[l][i] + mem[e][i]];
          mem[e] := mem[e][i := 1];
          i := i + 1;
        }
      }
      CurrentWritten(m0);
      assert View(mem[..], current).(isPSample := false, iCol := 0)
          == NextCounts(View(m0, current).(isPSample := false, iCol := 0), nRow, iChng);
    }

    lemma CurrentWritten(m0: seq<seq<nat>>)
      requires Valid() && |m0| == mem.Length && OnlyBufs(m0, mem[..], current)
      ensures Views(mem[..], a[..][mxSample..]) == Views(m0, a[..][mxSample..])
      ensures Views(mem[..], a[..][..nSample]) == Views(m0, a[..][..nSample])
    {
      hide Apart;
      ViewsUntouched(m0, mem[..], a[..], current, mxSample, a.Length, nCol);
      ViewsUntouched(m0, mem[..], a[..], current, 0, nSample, nCol);
      assert a[..][mxSample..] == a[..][mxSample..a.Length];
    }

    /** Change plain fields of `current`. */
    method SetCurrent(x: Slot)
      requires Valid() && x.iCol < nCol
      requires x.anEq == current.anEq && x.anLt == current.anLt && x.anDLt == current.anDLt
      modifies this`current
      ensures Valid() && current == x && ApartFromAll(a[..][..mxSample], current)
      ensures State() == old(State()).(current := old(State()).current.(rowid := x.rowid, iHash := x.iHash))
    {
      current := x;
    }

    /** Keep the current row if it is due as a periodic sample. */
    method KeepIfPeriodic()
      requires Valid() && WellFormed(State())
      modifies this`current, this`nSample, this`nMaxEqZero, this`iMin, a, mem
      ensures Valid() && State() == KeepPeriodic(old(State()))
      ensures !current.isPSample || !old(!current.isPSample)
    {
      hide Owners, Apart, Insert, Views, WellFormed;
      var nLt := mem[current.anLt][nCol - 1];
      if nLt / nPSample != (nLt + 1) / nPSample {
        SetCurrent(current.(isPSample := true, iCol := 0));
        SampleInsert(current, nCol - 1);
        SetCurrent(current.(isPSample := false));
      }
    }

    /** The current row becomes the candidate of level `i`. */
    method CopyToBest(i: nat)
      requires Valid() && i < nCol
      modifies a, mem
      ensures Valid()
      ensures var s := old(State());
              State() == s.(aBest := s.aBest[i := old(View(mem[..], current))])
    {
      hide Apart;
      ghost var m0, s0 := mem[..], a[..];
      var k := mxSample + i;
      SampleCopy(k, current);
      assert s0[mxSample..] == s0[mxSample..a.Length] && a[..][mxSample..] == a[..][mxSample..a.Length];
      ViewsUpdated(m0, mem[..], s0, a[..], k, mxSample, a.Length, nCol);
      ViewsBefore(m0, mem[..], s0, a[..], k, nSample, nCol);
      ViewApart(m0, mem[..], s0[k], current, nCol);
    }

    method UpdateBests(iChng: nat)
      requires Valid() && Allocated(State()) && !current.isPSample
      modifies this`current, a, mem
      ensures Valid() && State() == UpdateBest(old(State()), iChng) && !current.isPSample
    {
      hide Owners, Apart, ApartFromAll, Views, BetterFrom, Allocated;
      ghost var s := State();
      var i := 0;
      while i < nCol - 1
        invariant 0 <= i <= nCol - 1 && !current.isPSample
        invariant Valid() && State() == s.(aBest := State().aBest) && |State().aBest| == |s.aBest| == nCol
        invariant forall j | i <= j < nCol :: State().aBest[j] == s.aBest[j]
        invariant forall j | 0 <= j < i :: State().aBest[j] == UpdateBest(s, iChng).aBest[j]
      {
        SetCurrent(current.(iCol := i));
        BestAt(i);
        var better := i >= iChng;
        if !better {
          better := SampleIsBetterPost(View(mem[..], current), View(mem[..], a[mxSample + i]));
        }
        if better {
          CopyToBest(i);
        }
        i := i + 1;
      }
    }

    method CountRow(id: Rowid)
      requires Valid()
      modifies this`nRow, this`iPrn, this`current
      ensures Valid() && current.isPSample == old(current.isPSample) && nRow == old(nRow) + 1
      ensures var s := old(State());
              State() == s.(nRow := s.nRow + 1, iPrn := NextPrn(s.iPrn),
                            current := s.current.(rowid := id, iHash := NextPrn(s.iPrn)))
    {
      hide Owners, Apart, ApartFromAll, Views;
      nRow := nRow + 1;
      iPrn := NextPrn(iPrn);
      SetCurrent(current.(rowid := id, iHash := iPrn));
    }

    /** stat_push(): the next row of the index arrives. */
    method StatPush(iChng: nat, id: Rowid)
      requires Valid() && WellFormed(State()) && iChng < nCol && !current.isPSample
      modifies this`nRow, this`iPrn, this`current, this`nSample, this`nMaxEqZero, this`iMin, a, mem
      ensures Valid() && !current.isPSample && nRow == old(nRow) + 1
      ensures State() == PushRow(old(State()), iChng, id)
    {
      hide Owners, Apart, ApartFromAll, Views, PushPrevious, KeepPeriodic, UpdateBest, NextCounts, WellFormed,
        Allocated;
      if nRow != 0 {
        SamplePushPrevious(iChng);
      }
      ghost var s1 := State();
      AdvanceCounts(iChng);
      CountRow(id);
      assert State() == Arrive(s1, iChng, id);
      KeepIfPeriodic();
      UpdateBests(iChng);
    }

    /** stat_get(P): the list of the stat column. */
    method StatGetStat1() returns (list: seq<nat>)
      requires Valid()
      ensures list == Stat1(nRow, nRow, nKeyCol, State().current)
    {
      ghost var x := State().current;
      hide Owners, Apart, ApartFromAll, Views;
      list := [nRow];
      for i := 0 to nKeyCol
        invariant list == Stat1(nRow, nRow, i, x)
      {
        var nDistinct := mem[current.anDLt][i] + 1;
        var iVal := (nRow + nDistinct - 1) / nDistinct;
        if iVal == 2 && nRow * 10 <= nDistinct * 11 { iVal := 1; }
        list := list + [iVal];
      }
    }

    /** stat_get(P, rowid): the first call closes the groups that are still open. */
    method StatGetRowid() returns (r: Option<Rowid>)
      requires Valid() && 0 < nRow && WellFormed(State())
      modifies this`iGet, this`nSample, this`nMaxEqZero, this`iMin, a, mem
      ensures Valid() && iGet == if old(iGet) < 0 then 0 else old(iGet)
      ensures State() == if old(iGet) < 0 then PushPrevious(old(State()), 0) else old(State())
      ensures r == if iGet < nSample then Some(State().a[iGet].rowid) else None
    {
      hide Owners, Apart, ApartFromAll, PushPrevious;
      if iGet < 0 {
        SamplePushPrevious(0);
        iGet := 0;
      }
      if iGet < nSample {
        SampleAt(iGet);
        return Some(a[iGet].rowid);
      }
      return None;
    }

    /** The three count lists of the current sample. The last call moves on to the next sample. */
    method StatGetCounts() returns (neq: seq<nat>, nlt: seq<nat>, ndlt: seq<nat>)
      requires Valid() && 0 <= iGet < nSample
      modifies this`iGet
      ensures Valid() && iGet == old(iGet) + 1 && State() == old(State())
      ensures var x := State().a[old(iGet)]; neq == x.anEq && nlt == x.anLt && ndlt == x.anDLt
    {
      hide Owners, Apart, ApartFromAll;
      SampleAt(iGet);
      var x := a[iGet];
      neq, nlt, ndlt := mem[x.anEq], mem[x.anLt], mem[x.anDLt];
      iGet := iGet + 1;
    }
  }

  // -------------------- a whole ANALYZE --------------------

  /** What is stored about one sample. */
  datatype Stat4Row = Stat4Row(rowid: Rowid, neq: seq<nat>, nlt: seq<nat>, ndlt: seq<nat>)

  function AsSample(x: Stat4Row): Sample {
    Sample(x.neq, x.nlt, x.ndlt, x.rowid, false, 0, 0)
  }

  /** The accumulator has seen the first `t` rows. */
  ghost predicate Scanned(s: Accum, rows: seq<Row>, iChng: seq<nat>, ids: seq<Rowid>, t: nat,
                          nKeyCol: nat, nEst: nat, mxSample: nat, seed: nat)
  {
    t <= |rows| && HasRoom(|rows|, nEst, mxSample) && HasRoom(t, nEst, mxSample) && 0 < nKeyCol <= s.nCol &&
    0 < mxSample &&
    IsScan(rows, iChng, ids, s.nCol) && IsScan(rows[..t], iChng[..t], ids[..t], s.nCol) &&
    s == Run(rows[..t], iChng[..t], ids[..t], s.nCol, nKeyCol, nEst, mxSample, seed)
  }

  lemma ScanStarts(s: Accum, rows: seq<Row>, iChng: seq<nat>, ids: seq<Rowid>,
                   nCol: nat, nKeyCol: nat, nEst: nat, mxSample: nat, seed: nat)
    requires 0 < nKeyCol <= nCol && 0 < mxSample && HasRoom(|rows|, nEst, mxSample) && IsScan(rows, iChng, ids, nCol)
    requires s == Init(nCol, nKeyCol, nEst, mxSample, seed)
    ensures Scanned(s, rows, iChng, ids, 0, nKeyCol, nEst, mxSample, seed)
  {
    ScanTake(rows, iChng, ids, nCol, 0);
    RoomSooner(0, |rows|, nEst, mxSample);
    assert rows[..0] == [];
    hide IsScan, HasRoom, Running;
  }

  lemma ScanGoesOn(s: Accum, rows: seq<Row>, iChng: seq<nat>, ids: seq<Rowid>, t: nat,
                   nKeyCol: nat, nEst: nat, mxSample: nat, seed: nat)
    requires Scanned(s, rows, iChng, ids, t, nKeyCol, nEst, mxSample, seed) && t < |rows|
    ensures WellFormed(s) && t < |iChng| && t < |ids| && iChng[t] < s.nCol
    ensures PushRow(s, iChng[t], ids[t]).nCol == s.nCol
    ensures Scanned(PushRow(s, iChng[t], ids[t]), rows, iChng, ids, t + 1, nKeyCol, nEst, mxSample, seed)
  {
    hide *;
    ScannedSoFar(s, rows, iChng, ids, t, nKeyCol, nEst, mxSample, seed);
    ChangeInRange(rows, iChng, ids, s.nCol, t);
    ScanTake(rows, iChng, ids, s.nCol, t + 1);
    RoomSooner(t + 1, |rows|, nEst, mxSample);
    var R, C, I := rows[..t + 1], iChng[..t + 1], ids[..t + 1];
    assert R[..t] == rows[..t] && C[..t] == iChng[..t] && I[..t] == ids[..t];
    RunUnfolds(s, R, C, I, rows[..t], iChng[..t], ids[..t], nKeyCol, nEst, mxSample, seed);
    IsScanned(PushRow(s, iChng[t], ids[t]), rows, iChng, ids, t + 1, s.nCol, nKeyCol, nEst, mxSample, seed);
  }

  lemma ScannedSoFar(s: Accum, rows: seq<Row>, iChng: seq<nat>, ids: seq<Rowid>, t: nat,
                     nKeyCol: nat, nEst: nat, mxSample: nat, seed: nat)
    requires Scanned(s, rows, iChng, ids, t, nKeyCol, nEst, mxSample, seed)
    ensures t <= |rows| == |iChng| == |ids| && 0 < nKeyCol <= s.nCol && 0 < mxSample
    ensures HasRoom(|rows|, nEst, mxSample) && HasRoom(t, nEst, mxSample)
    ensures IsScan(rows, iChng, ids, s.nCol) && IsScan(rows[..t], iChng[..t], ids[..t], s.nCol)
    ensures s == Run(rows[..t], iChng[..t], ids[..t], s.nCol, nKeyCol, nEst, mxSample, seed)
  {
    assert |rows| == |iChng| == |ids|;
    hide *;
  }

  lemma IsScanned(s: Accum, rows: seq<Row>, iChng: seq<nat>, ids: seq<Rowid>, t: nat, nCol: nat,
                  nKeyCol: nat, nEst: nat, mxSample: nat, seed: nat)
    requires t <= |rows| == |iChng| == |ids| && 0 < nKeyCol <= nCol && 0 < mxSample
    requires HasRoom(|rows|, nEst, mxSample) && HasRoom(t, nEst, mxSample)
    requires IsScan(rows, iChng, ids, nCol) && IsScan(rows[..t], iChng[..t], ids[..t], nCol)
    requires s == Run(rows[..t], iChng[..t], ids[..t], nCol, nKeyCol, nEst, mxSample, seed)
    ensures s.nCol == nCol && Scanned(s, rows, iChng, ids, t, nKeyCol, nEst, mxSample, seed)
  {
    hide Run, IsScan, HasRoom, Running, Init;
  }

  lemma RunUnfolds(s: Accum, R: seq<Row>, C: seq<nat>, I: seq<Rowid>, R0: seq<Row>, C0: seq<nat>, I0: seq<Rowid>,
                   nKeyCol: nat, nEst: nat, mxSample: nat, seed: nat)
    requires 0 < nKeyCol <= s.nCol && 0 < mxSample && HasRoom(|R|, nEst, mxSample) && HasRoom(|R0|, nEst, mxSample) &&
             IsScan(R, C, I, s.nCol) && IsScan(R0, C0, I0, s.nCol)
    requires R != [] && R0 == R[..|R| - 1] && C0 == C[..|R| - 1] && I0 == I[..|R| - 1]
    requires s == Run(R0, C0, I0, s.nCol, nKeyCol, nEst, mxSample, seed)
    ensures WellFormed(s)
    ensures Run(R, C, I, s.nCol, nKeyCol, nEst, mxSample, seed) == PushRow(s, C[|R| - 1], I[|R| - 1])
  {
    hide PushRow, Sorted, AllBestOk, Kept, CurrentOk, MinOk, LessAt, IsScan;
    assert WellFormed(s);
  }

  lemma ScanFinished(s: Accum, rows: seq<Row>, iChng: seq<nat>, ids: seq<Rowid>,
                     nKeyCol: nat, nEst: nat, mxSample: nat, seed: nat)
    requires Scanned(s, rows, iChng, ids, |rows|, nKeyCol, nEst, mxSample, seed) && 0 < |rows|
    ensures WellFormed(s)
    ensures var t := PushPrevious(s, 0);
            |t.a| <= mxSample && Increasing(t.a) && (forall k | 0 <= k < |t.a| :: Exact(rows, ids, s.nCol, t.a[k])) &&
            PeriodicRows(t.a) == PeriodicBelow(|rows|, SampleInterval(nEst, mxSample))
    ensures Stat1(s.nRow, s.nRow, s.nKeyCol, s.current) ==
            Stat1(|rows|, |rows|, nKeyCol, Tallied(iChng, s.nCol, mxSample, 0).current)
  {
    hide *;
    AllScanned(s, rows, iChng, ids, nKeyCol, nEst, mxSample, seed);
    SamplesExact(rows, iChng, ids, s.nCol, nKeyCol, nEst, mxSample, seed);
    SamplerCounts(rows, iChng, ids, s.nCol, nKeyCol, nEst, mxSample, seed);
    SameStat1(|rows|, |rows|, nKeyCol, s.current, Tallied(iChng, s.nCol, mxSample, 0).current);
  }

  lemma SameStat1(n: nat, nRow: nat, nKeyCol: nat, x: Sample, y: Sample)
    requires x.anDLt == y.anDLt && nKeyCol <= |x.anDLt|
    ensures Stat1(n, nRow, nKeyCol, x) == Stat1(n, nRow, nKeyCol, y)
  {
  }

  /** Every row that was due is among the samples. */
  lemma PeriodicStored(a: seq<Sample>, n: nat, nPSample: nat, r: nat) returns (k: nat)
    requires 0 < nPSample && PeriodicRows(a) == PeriodicBelow(n, nPSample) && r < n && PeriodicRow(r, nPSample)
    ensures k < |a| && RowOf(a[k]) == r
  {
    PeriodicBelowCount(n, nPSample);
    k := PeriodicRowIn(a, r);
  }

  lemma AllScanned(s: Accum, rows: seq<Row>, iChng: seq<nat>, ids: seq<Rowid>,
                   nKeyCol: nat, nEst: nat, mxSample: nat, seed: nat)
    requires Scanned(s, rows, iChng, ids, |rows|, nKeyCol, nEst, mxSample, seed) && 0 < |rows|
    ensures 0 < nKeyCol <= s.nCol && 0 < mxSample && HasRoom(|rows|, nEst, mxSample) &&
            IsScan(rows, iChng, ids, s.nCol) && WellFormed(s)
    ensures |rows| == |iChng| && s.nKeyCol == nKeyCol
    ensures s == Run(rows, iChng, ids, s.nCol, nKeyCol, nEst, mxSample, seed)
  {
    assert |iChng| == |ids| == |rows|;
    hide Run, IsScan, WellFormed;
    assert rows[..|rows|] == rows && iChng[..|rows|] == iChng && ids[..|rows|] == ids;
    hide Running;
  }

  lemma StoredExact(rows: seq<Row>, ids: seq<Rowid>, nCol: nat, x: Sample, y: Stat4Row)
    requires 0 < nCol && Exact(rows, ids, nCol, x) && y == Stat4Row(x.rowid, x.anEq, x.anLt, x.anDLt)
    ensures Exact(rows, ids, nCol, AsSample(y)) && RowOf(AsSample(y)) == RowOf(x)
  {
  }

  /** The loop of stat_get() calls that reads all samples. */
  method ReadSamples(p: StatAccum) returns (out: seq<Stat4Row>)
    requires p.Valid() && 0 < p.nRow && p.iGet == -1 && WellFormed(p.State())
    modifies p, p.a, p.mem
    ensures var a := PushPrevious(old(p.State()), 0).a;
            |out| == |a| && forall k | 0 <= k < |a| :: out[k] == Stat4Row(a[k].rowid, a[k].anEq, a[k].anLt, a[k].anDLt)
  {
    hide WellFormed, Allocated, PushPrevious, Owners, Apart, ApartFromAll, View, Views;
    ghost var s := PushPrevious(p.State(), 0);
    out := [];
    var r := p.StatGetRowid();
    while r.Some?
      invariant p.Valid() && p.State() == s && 0 < p.nRow && p.iGet == |out| <= p.nSample
      invariant r == if p.iGet < p.nSample then Some(s.a[p.iGet].rowid) else None
      invariant forall k | 0 <= k < |out| :: out[k] == Stat4Row(s.a[k].rowid, s.a[k].anEq, s.a[k].anLt, s.a[k].anDLt)
      decreases p.nSample - p.iGet
    {
      var neq, nlt, ndlt := p.StatGetCounts();
      out := out + [Stat4Row(r.value, neq, nlt, ndlt)];
      r := p.StatGetRowid();
    }
  }

  /** ANALYZE of an index whose rows are `rows`: the code sees only where each row first differs
      from the one before, and the rowids. The list and everything else that it stores is exact for the whole index;
      the samples are stored in index order, they are those that the sampler retains, and every row that is due as a
      periodic sample is one of them. */
  method Analyze(ghost rows: seq<Row>, iChng: seq<nat>, ids: seq<Rowid>,
                 nCol: nat, nKeyCol: nat, nEst: nat, mxSample: nat) returns (list: seq<nat>, out: seq<Stat4Row>)
    requires 0 < nKeyCol <= nCol && 0 < mxSample && IsScan(rows, iChng, ids, nCol) && ids != [] &&
             HasRoom(|ids|, nEst, mxSample)
    ensures |list| == nKeyCol + 1 && list[0] == |rows| && forall i | 1 <= i < |list| :: Estimates(rows, list, i)
    ensures var a := PushPrevious(Run(rows, iChng, ids, nCol, nKeyCol, nEst, mxSample, Seed(nCol, nEst)), 0).a;
            |out| == |a| && forall k | 0 <= k < |a| :: out[k] == Stat4Row(a[k].rowid, a[k].anEq, a[k].anLt, a[k].anDLt)
    ensures |out| <= mxSample
    ensures forall k | 0 <= k < |out| :: Exact(rows, ids, nCol, AsSample(out[k]))
    ensures forall j, k | 0 <= j < k < |out| :: RowOf(AsSample(out[j])) < RowOf(AsSample(out[k]))
    ensures forall r: nat | r < |rows| && PeriodicRow(r, SampleInterval(nEst, mxSample)) ::
              exists k :: 0 <= k < |out| && RowOf(AsSample(out[k])) == r
    ensures forall r: nat, l: nat | r < |rows| && l < nCol - 1 ::
              GroupStored(rows, out, mxSample, r, l, SampleInterval(nEst, mxSample))
  {
    hide WellFormed, Allocated, PushRow, PushPrevious, Owners, Apart, ApartFromAll, View, Views, Init, Running,
      Scanned, Run, Exact;
    var p := new StatAccum(nCol, nKeyCol, nEst, mxSample);
    ghost var seed := Seed(nCol, nEst);
    assert |rows| == |ids| == |iChng|;
    ScanStarts(p.State(), rows, iChng, ids, nCol, nKeyCol, nEst, mxSample, seed);
    hide IsScan, HasRoom;
    var t := 0;
    while t < |ids|
      invariant 0 <= t <= |ids|
      invariant fresh(p) && fresh(p.a) && fresh(p.mem) && p.Valid() && !p.current.isPSample && p.iGet == -1
      invariant p.nCol == nCol && p.nRow == t && Scanned(p.State(), rows, iChng, ids, t, nKeyCol, nEst, mxSample, seed)
    {
      ScanGoesOn(p.State(), rows, iChng, ids, t, nKeyCol, nEst, mxSample, seed);
      p.StatPush(iChng[t], ids[t]);
      t := t + 1;
    }
    list, out := Finish(p, rows, iChng, ids, nCol, nKeyCol, nEst, mxSample, seed);
  }

  /** Reading everything after the last row. */
  method Finish(p: StatAccum, ghost rows: seq<Row>, ghost iChng: seq<nat>, ghost ids: seq<Rowid>,
                ghost nCol: nat, ghost nKeyCol: nat, ghost nEst: nat, ghost mxSample: nat, ghost seed: nat)
    returns (list: seq<nat>, out: seq<Stat4Row>)
    requires p.Valid() && 0 < p.nRow && p.iGet == -1 && p.nCol == nCol && rows != []
    requires Scanned(p.State(), rows, iChng, ids, |rows|, nKeyCol, nEst, mxSample, seed)
    requires 0 < nKeyCol <= nCol && 0 < mxSample && IsScan(rows, iChng, ids, nCol) && HasRoom(|rows|, nEst, mxSample)
    modifies p, p.a, p.mem
    ensures |list| == nKeyCol + 1 && list[0] == |rows| && forall i | 1 <= i < |list| :: Estimates(rows, list, i)
    ensures var a := PushPrevious(Run(rows, iChng, ids, nCol, nKeyCol, nEst, mxSample, seed), 0).a;
            |out| == |a| && forall k | 0 <= k < |a| :: out[k] == Stat4Row(a[k].rowid, a[k].anEq, a[k].anLt, a[k].anDLt)
    ensures |out| <= mxSample
    ensures forall k | 0 <= k < |out| :: Exact(rows, ids, nCol, AsSample(out[k]))
    ensures forall j, k | 0 <= j < k < |out| :: RowOf(AsSample(out[j])) < RowOf(AsSample(out[k]))
    ensures forall r: nat | r < |rows| && PeriodicRow(r, SampleInterval(nEst, mxSample)) ::
              exists k :: 0 <= k < |out| && RowOf(AsSample(out[k])) == r
    ensures forall r: nat, l: nat | r < |rows| && l < nCol - 1 ::
              GroupStored(rows, out, mxSample, r, l, SampleInterval(nEst, mxSample))
  {
    hide WellFormed, Allocated, PushPrevious, Owners, Apart, ApartFromAll, View, Views, Running, Scanned, Run, Exact,
      IsScan, HasRoom, Estimates, Stat1, PeriodicRows, PeriodicBelow;
    ghost var s := p.State();
    AllScanned(s, rows, iChng, ids, nKeyCol, nEst, mxSample, seed);
    ScanFinished(s, rows, iChng, ids, nKeyCol, nEst, mxSample, seed);
    SkipsAfterLimit(iChng, nCol, mxSample, 0);
    Stat1Falls(rows, iChng, ids, nCol, nKeyCol, nEst, mxSample, 0);
    ghost var samples := PushPrevious(s, 0).a;
    list := p.StatGetStat1();
    out := ReadSamples(p);
    Delivered(rows, ids, nCol, samples, out, SampleInterval(nEst, mxSample));
    LargestGroupsKept(rows, iChng, ids, nCol, nKeyCol, nEst, mxSample, seed);
    hide GroupStored, GroupKept;
    forall r: nat, l: nat | r < |rows| && l < nCol - 1
      ensures GroupStored(rows, out, mxSample, r, l, SampleInterval(nEst, mxSample))
    {
      StoredGroup(rows, ids, nCol, samples, out, mxSample, SampleInterval(nEst, mxSample), r, l);
    }
  }

  /** Some stored row belongs to the group of row `r` by its first `l + 1` columns; or as many rows as possible are
      stored, and none that was not due as a periodic sample has a value in its first column with fewer rows than that
      group. */
  ghost predicate GroupStored(rows: seq<Row>, out: seq<Stat4Row>, mxSample: nat, r: nat, l: nat, nPSample: nat)
    requires r < |rows| && 0 < nPSample
  {
    (exists u :: 0 <= u < |out| && InGroup(rows, RowOf(AsSample(out[u])), r, l)) ||
    (|out| == mxSample && forall k | 0 <= k < |out| ::
      var q := RowOf(AsSample(out[k]));
      q < |rows| && (PeriodicRow(q, nPSample) || CountEq(rows, rows[r], l + 1) <= CountEq(rows, rows[q], 1)))
  }

  ghost predicate InGroup(rows: seq<Row>, q: nat, r: nat, l: nat)
    requires r < |rows|
  {
    q < |rows| && Same(rows[q], rows[r], l + 1)
  }

  lemma StoredGroup(rows: seq<Row>, ids: seq<Rowid>, nCol: nat, samples: seq<Sample>, out: seq<Stat4Row>, mxSample: nat,
                    nPSample: nat, r: nat, l: nat)
    requires 0 < nPSample && r < |rows| && GroupKept(rows, samples, mxSample, r, l) && |out| == |samples|
    requires forall k | 0 <= k < |out| ::
               Exact(rows, ids, nCol, AsSample(out[k])) && RowOf(AsSample(out[k])) == RowOf(samples[k])
    requires PeriodicRows(samples) == PeriodicBelow(|rows|, nPSample)
    ensures GroupStored(rows, out, mxSample, r, l, nPSample)
  {
    hide Exact, PeriodicRows, PeriodicBelow, PeriodicRow, Same, CountEq;
    if u :| 0 <= u < |samples| && RowOf(samples[u]) < |rows| && Same(rows[RowOf(samples[u])], rows[r], l + 1) {
      assert InGroup(rows, RowOf(AsSample(out[u])), r, l);
    } else {
      forall k | 0 <= k < |out|
        ensures var q := RowOf(AsSample(out[k]));
                q < |rows| && (PeriodicRow(q, nPSample) || CountEq(rows, rows[r], l + 1) <= CountEq(rows, rows[q], 1))
      {
        StoredWeight(rows, ids, nCol, samples, AsSample(out[k]), nPSample, r, l, k);
      }
    }
  }

  lemma StoredWeight(rows: seq<Row>, ids: seq<Rowid>, nCol: nat, samples: seq<Sample>, y: Sample, nPSample: nat,
                     r: nat, l: nat, k: nat)
    requires 0 < nPSample && r < |rows| && k < |samples| && Exact(rows, ids, nCol, y) && RowOf(y) == RowOf(samples[k])
    requires PeriodicRows(samples) == PeriodicBelow(|rows|, nPSample)
    requires forall j | 0 <= j < |samples| && !samples[j].isPSample ::
               RowOf(samples[j]) < |rows| &&
               CountEq(rows, rows[r], l + 1) <= CountEq(rows, rows[RowOf(samples[j])], samples[j].iCol + 1)
    ensures var q := RowOf(y);
            q < |rows| && (PeriodicRow(q, nPSample) || CountEq(rows, rows[r], l + 1) <= CountEq(rows, rows[q], 1))
  {
    if samples[k].isPSample {
      PeriodicSampleRow(samples, k);
      OnlyPeriodicBelow(|rows|, nPSample, RowOf(y));
    } else {
      CountEqMono(rows, rows[RowOf(y)], 1, samples[k].iCol + 1);
    }
  }

  lemma {:induction false} PeriodicSampleRow(a: seq<Sample>, k: nat)
    requires k < |a| && a[k].isPSample
    ensures RowOf(a[k]) in PeriodicRows(a)
  {
    if k < |a| - 1 {
      PeriodicSampleRow(a[..|a| - 1], k);
    }
  }

  lemma {:induction false} OnlyPeriodicBelow(n: nat, nPSample: nat, r: nat)
    requires 0 < nPSample && r in PeriodicBelow(n, nPSample)
    ensures PeriodicRow(r, nPSample)
  {
    hide PeriodicRow;
    if r in PeriodicBelow(n - 1, nPSample) {
      OnlyPeriodicBelow(n - 1, nPSample, r);
    }
  }

  /** The stored rows are the samples. */
  lemma Delivered(rows: seq<Row>, ids: seq<Rowid>, nCol: nat, samples: seq<Sample>, out: seq<Stat4Row>, nPSample: nat)
    requires 0 < nCol && 0 < nPSample && Increasing(samples) &&
             forall k | 0 <= k < |samples| :: Exact(rows, ids, nCol, samples[k])
    requires PeriodicRows(samples) == PeriodicBelow(|rows|, nPSample) && |out| == |samples|
    requires forall k | 0 <= k < |out| ::
               out[k] == Stat4Row(samples[k].rowid, samples[k].anEq, samples[k].anLt, samples[k].anDLt)
    ensures forall k | 0 <= k < |out| ::
              Exact(rows, ids, nCol, AsSample(out[k])) && RowOf(AsSample(out[k])) == RowOf(samples[k])
    ensures forall j, k | 0 <= j < k < |out| :: RowOf(AsSample(out[j])) < RowOf(AsSample(out[k]))
    ensures forall r: nat | r < |rows| && PeriodicRow(r, nPSample) ::
              exists k :: 0 <= k < |out| && RowOf(AsSample(out[k])) == r
  {
    hide Exact, PeriodicRows, PeriodicBelow;
    forall k | 0 <= k < |out|
      ensures Exact(rows, ids, nCol, AsSample(out[k])) && RowOf(AsSample(out[k])) == RowOf(samples[k])
    {
      StoredExact(rows, ids, nCol, samples[k], out[k]);
    }
    hide AsSample, RowOf;
    forall r: nat | r < |rows| && PeriodicRow(r, nPSample)
      ensures exists k :: 0 <= k < |out| && RowOf(AsSample(out[k])) == r
    {
      var k := PeriodicStored(samples, |rows|, nPSample, r);
    }
  }
}
