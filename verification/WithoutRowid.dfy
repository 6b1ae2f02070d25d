/** The indexes of a WITHOUT ROWID table: the primary key loses repeated terms and gains all columns, and every
    other index gets the primary key in the place of the rowid. */
module WithoutRowid {
  import opened HashTable

  /** The column number that stands for the rowid. */
  const XN_ROWID := -1

  /** A column with its collating sequence and its sort order. */
  datatype Term = Term(col: int, coll: Key, desc: bool)

  /** Whether two terms sort in the same direction makes no difference. */
  predicate Same(t: Term, u: Term) {
    t.col == u.col && Fold(t.coll) == Fold(u.coll)
  }

  predicate Has(ts: seq<Term>, t: Term) {
    exists k :: 0 <= k < |ts| && Same(ts[k], t)
  }

  // -------------------- the terms that are wanted --------------------

  /** The terms without repetition, each where it first stood. */
  function Dedup(ts: seq<Term>): (r: seq<Term>)
    ensures |r| <= |ts|
  {
    if ts == [] then []
    else
      var r, t := Dedup(ts[..|ts| - 1]), ts[|ts| - 1];
      if Has(r, t) then r else r + [t]
  }

  /** The terms of a primary key that an index lacks, in ascending order. */
  function Missing(key: seq<Term>, pk: seq<Term>): (r: seq<Term>)
    ensures |r| <= |pk|
  {
    if pk == [] then []
    else
      var r, t := Missing(key, pk[..|pk| - 1]), pk[|pk| - 1];
      if Has(key, t) then r else r + [t.(desc := false)]
  }

  /** A list of terms has the column and the collating sequence of `t`, in ascending or descending order. */
  predicate Lists(ts: seq<Term>, t: Term) {
    t in ts || t.(desc := !t.desc) in ts
  }

  /** The stored columns among the first `n` that a list of columns lacks. */
  function Extra(have: seq<int>, virt: seq<bool>, n: nat): (r: seq<int>)
    requires n <= |virt|
    ensures |r| <= n
  {
    if n == 0 then []
    else
      var r := Extra(have, virt, n - 1);
      if n - 1 in have || virt[n - 1] then r else r + [n - 1]
  }

  predicate NoRepeats(ts: seq<Term>) {
    forall j, k :: 0 <= j < k < |ts| ==> !Same(ts[j], ts[k])
  }

  lemma SameAs(t: Term, u: Term, v: Term)
    ensures Same(t, t) && (Same(t, u) <==> Same(u, t)) && (Same(t, u) && Same(u, v) ==> Same(t, v))
  {
  }

  /** Deduplication leaves no term twice, and neither loses a term nor makes one up. */
  lemma {:induction false} DedupKeeps(ts: seq<Term>)
    ensures NoRepeats(Dedup(ts)) && (forall t :: t in Dedup(ts) ==> t in ts)
    ensures forall t :: Has(Dedup(ts), t) <==> Has(ts, t)
  {
    if ts != [] {
      var init, last := ts[..|ts| - 1], ts[|ts| - 1];
      DedupKeeps(init);
      var r := Dedup(init);
      hide Same, Dedup, Has;
      forall t
        ensures Has(Dedup(ts), t) <==> Has(r, t) || Same(last, t)
        ensures Has(ts, t) <==> Has(init, t) || Same(last, t)
      {
        DedupStep(ts, t);
      }
      DedupLast(ts);
    }
  }

  lemma DedupStep(ts: seq<Term>, t: Term)
    requires ts != []
    ensures Has(Dedup(ts), t) <==> Has(Dedup(ts[..|ts| - 1]), t) || Same(ts[|ts| - 1], t)
    ensures Has(ts, t) <==> Has(ts[..|ts| - 1], t) || Same(ts[|ts| - 1], t)
  {
    hide *;
    var init, last := ts[..|ts| - 1], ts[|ts| - 1];
    var r := Dedup(init);
    DedupLonger(ts);
    HasMore(r, last, t);
    HasMore(init, last, t);
    assert ts == init + [last];
    if Has(r, last) && Same(last, t) {
      HasSame(r, last, t);
    }
  }

  lemma DedupLast(ts: seq<Term>)
    requires ts != [] && NoRepeats(Dedup(ts[..|ts| - 1]))
    ensures NoRepeats(Dedup(ts)) && forall t :: t in Dedup(ts) ==> t in Dedup(ts[..|ts| - 1]) || t == ts[|ts| - 1]
  {
    DedupLonger(ts);
    var r, last := Dedup(ts[..|ts| - 1]), ts[|ts| - 1];
    hide *;
    if !Has(r, last) {
      StillNoRepeats(r, last);
    }
  }

  lemma DedupLonger(ts: seq<Term>)
    requires ts != []
    ensures var r, last := Dedup(ts[..|ts| - 1]), ts[|ts| - 1]; Dedup(ts) == if Has(r, last) then r else r + [last]
  {
    hide Has;
  }

  lemma StillNoRepeats(r: seq<Term>, last: Term)
    requires NoRepeats(r) && !Has(r, last)
    ensures NoRepeats(r + [last])
  {
    hide Same;
    assert forall j :: 0 <= j < |r| ==> !Same(r[j], last);
  }

  lemma HasSame(ts: seq<Term>, t: Term, u: Term)
    requires Has(ts, t) && Same(t, u)
    ensures Has(ts, u)
  {
    var k :| 0 <= k < |ts| && Same(ts[k], t);
    SameAs(ts[k], t, u);
    hide Same;
  }

  lemma HasMore(ts: seq<Term>, u: Term, t: Term)
    ensures Has(ts + [u], t) <==> Has(ts, t) || Same(u, t)
  {
    hide Same;
    if Has(ts, t) {
      var k :| 0 <= k < |ts| && Same(ts[k], t);
      assert (ts + [u])[k] == ts[k];
    }
    if Same(u, t) { assert (ts + [u])[|ts|] == u; }
  }

  /** With the missing terms, an index has the whole primary key; what it gains are terms of the primary key, none
      of them twice, and none that it had. */
  lemma {:induction false} MissingCovers(key: seq<Term>, pk: seq<Term>)
    requires NoRepeats(pk)
    ensures forall t :: t in pk ==> Has(key + Missing(key, pk), t)
    ensures NoRepeats(Missing(key, pk)) && forall t :: t in Missing(key, pk) ==> Lists(pk, t) && !t.desc && !Has(key, t)
  {
    if pk != [] {
      var init, last := pk[..|pk| - 1], pk[|pk| - 1];
      MissingCovers(key, init);
      MissingLast(key, pk);
      hide Same, Has, Missing, NoRepeats, Lists;
      forall t | t in pk
        ensures Has(key + Missing(key, pk), t)
      {
        MissingStep(key, pk, t);
      }
    }
  }

  lemma MissingLast(key: seq<Term>, pk: seq<Term>)
    requires pk != [] && NoRepeats(pk)
    requires var m := Missing(key, pk[..|pk| - 1]);
             NoRepeats(m) && forall t :: t in m ==> Lists(pk[..|pk| - 1], t) && !t.desc && !Has(key, t)
    ensures NoRepeats(Missing(key, pk)) && forall t :: t in Missing(key, pk) ==> Lists(pk, t) && !t.desc && !Has(key, t)
  {
    var init, last := pk[..|pk| - 1], pk[|pk| - 1];
    var m, up := Missing(key, init), last.(desc := false);
    MissingLonger(key, pk);
    assert Same(last, up);
    HasAnyOrder(key, last, up);
    hide Same, Has, Missing, Lists, NoRepeats;
    forall u | u in m
      ensures Lists(pk, u) && !Same(u, up)
    {
      ListedBefore(pk, u);
    }
    ListedLast(pk);
    if !Has(key, last) {
      StillApart(m, up);
    }
  }

  lemma ListedBefore(pk: seq<Term>, u: Term)
    requires pk != [] && NoRepeats(pk) && Lists(pk[..|pk| - 1], u)
    ensures Lists(pk, u) && !Same(u, pk[|pk| - 1].(desc := false))
  {
    var init := pk[..|pk| - 1];
    var v := if u in init then u else u.(desc := !u.desc);
    var k :| 0 <= k < |init| && init[k] == v;
    assert pk[k] == v && !Same(v, pk[|pk| - 1]);
  }

  lemma ListedLast(pk: seq<Term>)
    requires pk != []
    ensures Lists(pk, pk[|pk| - 1].(desc := false))
  {
    var last := pk[|pk| - 1];
    assert last in pk && (last == last.(desc := false) || last == last.(desc := true));
  }

  lemma StillApart(m: seq<Term>, up: Term)
    requires NoRepeats(m) && forall u :: u in m ==> !Same(u, up)
    ensures NoRepeats(m + [up])
  {
    hide Same;
  }

  lemma HasAnyOrder(ts: seq<Term>, t: Term, u: Term)
    requires Same(t, u)
    ensures Has(ts, t) <==> Has(ts, u)
  {
    if Has(ts, t) { HasSame(ts, t, u); }
    if Has(ts, u) { SameAs(t, u, t); HasSame(ts, u, t); }
  }

  lemma MissingStep(key: seq<Term>, pk: seq<Term>, t: Term)
    requires pk != [] && (t == pk[|pk| - 1] || Has(key + Missing(key, pk[..|pk| - 1]), t))
    ensures Has(key + Missing(key, pk), t)
  {
    var init, last := pk[..|pk| - 1], pk[|pk| - 1];
    var m, up := Missing(key, init), last.(desc := false);
    assert key + (m + [up]) == (key + m) + [up];
    HasMore(key + m, up, t);
    SameAs(t, t, t);
    assert Same(up, last);
    HasLonger(key, m, t);
    hide Same;
  }

  lemma HasLonger(a: seq<Term>, b: seq<Term>, t: Term)
    ensures Has(a, t) ==> Has(a + b, t)
  {
    hide Same;
    if Has(a, t) {
      var k :| 0 <= k < |a| && Same(a[k], t);
      assert (a + b)[k] == a[k];
    }
  }

  /** With the extra columns, a primary key has every stored column; what it gains are stored columns in ascending
      order that it did not have. */
  lemma {:induction false} ExtraCovers(have: seq<int>, virt: seq<bool>, n: nat)
    requires n <= |virt|
    ensures forall i :: 0 <= i < n && !virt[i] ==> i in have + Extra(have, virt, n)
    ensures forall i :: i in Extra(have, virt, n) ==> 0 <= i < n && !virt[i] && i !in have
    ensures forall j, k :: 0 <= j < k < |Extra(have, virt, n)| ==> Extra(have, virt, n)[j] < Extra(have, virt, n)[k]
  {
    if n > 0 {
      ExtraCovers(have, virt, n - 1);
      var r := Extra(have, virt, n - 1);
      forall i | 0 <= i < n && !virt[i]
        ensures i in have + Extra(have, virt, n)
      {
        if i < n - 1 { assert i in have + r; }
      }
      var e := Extra(have, virt, n);
      assert forall j :: 0 <= j < |r| ==> r[j] in r;
      forall j, k | 0 <= j < k < |e|
        ensures e[j] < e[k]
      {
        if k < |r| { assert r[j] < r[k]; }
      }
    }
  }

  lemma OneTerm(ts: seq<Term>)
    requires ts != []
    ensures Dedup(ts[..1]) == ts[..1]
  {
    assert ts[..1][..0] == [];
  }

  lemma MissingLonger(key: seq<Term>, pk: seq<Term>)
    ensures pk == [] ==> Missing(key, pk) == []
    ensures pk != [] ==>
              var r, t := Missing(key, pk[..|pk| - 1]), pk[|pk| - 1];
              Missing(key, pk) == if Has(key, t) then r else r + [t.(desc := false)]
  {
    hide Has;
  }

  lemma {:induction false} NothingMissing(key: seq<Term>, pk: seq<Term>)
    requires Missing(key, pk) == []
    ensures forall k :: 0 <= k < |pk| ==> Has(key, pk[k])
  {
    if pk != [] {
      MissingLonger(key, pk);
      hide Has;
      NothingMissing(key, pk[..|pk| - 1]);
    }
  }

  lemma {:induction false} MissingBound(key: seq<Term>, pk: seq<Term>, n: nat)
    requires n <= |pk|
    ensures |Missing(key, pk[..n])| <= |Missing(key, pk)|
    decreases |pk| - n
  {
    if n == |pk| {
      assert pk[..n] == pk;
    } else {
      MissingLonger(key, pk[..n + 1]);
      assert pk[..n + 1][..n] == pk[..n];
      MissingBound(key, pk, n + 1);
    }
  }

  /** One turn of the loops over the primary key. */
  lemma MissingTurn(key: seq<Term>, pk: seq<Term>, i: nat)
    requires i < |pk|
    ensures Missing(key, pk[..i + 1]) ==
            if Has(key, pk[i]) then Missing(key, pk[..i]) else Missing(key, pk[..i]) + [pk[i].(desc := false)]
    ensures |Missing(key, pk[..i])| <= |Missing(key, pk[..i + 1])| <= |Missing(key, pk)|
  {
    hide *;
    MissingLonger(key, pk[..i + 1]);
    assert pk[..i + 1][..i] == pk[..i];
    MissingBound(key, pk, i + 1);
  }

  /** One turn of the loop that removes repeated terms. */
  lemma DedupTurn(ts: seq<Term>, i: nat)
    requires i < |ts|
    ensures Dedup(ts[..i + 1]) == if Has(Dedup(ts[..i]), ts[i]) then Dedup(ts[..i]) else Dedup(ts[..i]) + [ts[i]]
  {
    DedupLonger(ts[..i + 1]);
    assert ts[..i + 1][..i] == ts[..i];
  }

  lemma ExtraLonger(have: seq<int>, virt: seq<bool>, n: nat)
    requires n <= |virt|
    ensures n == 0 ==> Extra(have, virt, n) == []
    ensures n > 0 ==>
              var r := Extra(have, virt, n - 1);
              Extra(have, virt, n) == if n - 1 in have || virt[n - 1] then r else r + [n - 1]
  {
  }

  /** One turn of the loops over the columns. */
  lemma ExtraTurn(have: seq<int>, virt: seq<bool>, i: nat)
    requires i < |virt|
    ensures i in have + Extra(have, virt, i) <==> i in have
    ensures Extra(have, virt, i + 1) ==
            if i in have || virt[i] then Extra(have, virt, i) else Extra(have, virt, i) + [i]
    ensures |Extra(have, virt, i)| <= |Extra(have, virt, i + 1)| <= |Extra(have, virt, |virt|)|
  {
    ExtraCovers(have, virt, i);
    ExtraBound(have, virt, i + 1);
  }

  lemma {:induction false} ExtraBound(have: seq<int>, virt: seq<bool>, n: nat)
    requires n <= |virt|
    ensures |Extra(have, virt, n)| <= |Extra(have, virt, |virt|)|
    decreases |virt| - n
  {
    if n < |virt| {
      ExtraLonger(have, virt, n + 1);
      ExtraBound(have, virt, n + 1);
    }
  }

  function Columns(ts: seq<Term>): (cols: seq<int>)
    ensures |cols| == |ts|
  {
    seq(|ts|, i requires 0 <= i < |ts| => ts[i].col)
  }

  predicate NoRowid(ts: seq<Term>) {
    XN_ROWID !in Columns(ts)
  }

  /** The terms of a primary key, and the stored columns among the first `n` that it lacks. */
  function WithColumns(ts: seq<Term>, virt: seq<bool>, n: nat, binary: Key): (r: seq<Term>)
    requires n <= |virt|
    ensures |r| == |ts| + |Extra(Columns(ts), virt, n)|
  {
    var e := Extra(Columns(ts), virt, n);
    ts + seq(|e|, i requires 0 <= i < |e| => Term(e[i], binary, false))
  }

  lemma NoColumns(ts: seq<Term>, virt: seq<bool>, binary: Key)
    ensures WithColumns(ts, virt, 0, binary) == ts && Extra(Columns(ts), virt, 0) == []
  {
  }

  lemma ColumnsStart(ts: seq<Term>, virt: seq<bool>, n: nat, binary: Key)
    requires n <= |virt|
    ensures WithColumns(ts, virt, n, binary)[..|ts|] == ts
  {
  }

  lemma ColumnsJoin(ts: seq<Term>, virt: seq<bool>, n: nat, binary: Key)
    requires n <= |virt|
    ensures Columns(WithColumns(ts, virt, n, binary)) == Columns(ts) + Extra(Columns(ts), virt, n)
  {
    hide Extra;
  }

  /** One turn of the loop that adds columns. */
  lemma ColumnsTurn(ts: seq<Term>, virt: seq<bool>, i: nat, binary: Key)
    requires i < |virt|
    ensures var has := i in Columns(WithColumns(ts, virt, i, binary));
            WithColumns(ts, virt, i + 1, binary) ==
            WithColumns(ts, virt, i, binary) + if has || virt[i] then [] else [Term(i, binary, false)]
    ensures |Extra(Columns(ts), virt, i + 1)| <= |Extra(Columns(ts), virt, |virt|)|
  {
    ExtraTurn(Columns(ts), virt, i);
    ColumnsJoin(ts, virt, i, binary);
    hide Extra, Columns;
  }

  // -------------------- the index objects --------------------

  /** Return true if a column number is among the first ones of an index. */
  method HasColumn(aiCol: array<int>, nCol: nat, x: int) returns (r: bool)
    requires nCol <= aiCol.Length
    ensures r <==> x in aiCol[..nCol]
  {
    var i := 0;
    while i < nCol
      invariant i <= nCol && x !in aiCol[..i]
    {
      if x == aiCol[i] { return true; }
      i := i + 1;
    }
    r := false;
  }

  class Index {
    var nKeyCol: nat
    var nColumn: nat
    var aiColumn: array<int>
    var azColl: array<Key>
    var aSortOrder: array<bool>
    var isResized: bool
    var bAscKeyBug: bool

    ghost predicate Sized()
      reads this
    {
      nKeyCol <= aiColumn.Length && nColumn <= aiColumn.Length && azColl.Length == aiColumn.Length &&
      aSortOrder.Length == aiColumn.Length
    }

    ghost predicate Valid()
      reads this
    {
      Sized() && nKeyCol <= nColumn
    }

    /** No part is shared with another index. */
    ghost predicate ApartFrom(other: Index)
      reads this, other
    {
      this != other && aiColumn != other.aiColumn && azColl != other.azColl && aSortOrder != other.aSortOrder
    }

    /** The first terms of the index. */
    ghost function Terms(n: nat): (ts: seq<Term>)
      requires Room(n)
      reads `aiColumn, `azColl, `aSortOrder, aiColumn, azColl, aSortOrder
      ensures |ts| == n
    {
      var cols, colls, orders := aiColumn, azColl, aSortOrder;
      seq(n, i requires 0 <= i < n && n <= cols.Length && n <= colls.Length && n <= orders.Length
               reads cols, colls, orders =>
        Term(cols[i], colls[i], orders[i]))
    }

    ghost predicate Room(n: nat)
      reads `aiColumn, `azColl, `aSortOrder
    {
      n <= aiColumn.Length && n <= azColl.Length && n <= aSortOrder.Length
    }

    ghost function TermOf(k: nat): Term
      requires Room(k + 1)
      reads `aiColumn, `azColl, `aSortOrder, aiColumn, azColl, aSortOrder
    {
      Term(aiColumn[k], azColl[k], aSortOrder[k])
    }

    /** isDupColumn(): one of the first `nKey` terms is the same as term `iCol` of the primary key. */
    method IsDupColumn(nKey: nat, pPk: Index, iCol: nat) returns (r: bool)
      requires Sized() && pPk.Sized() && nKey <= nColumn && (iCol < pPk.nColumn || iCol < pPk.nKeyCol)
      ensures r <==> Has(Terms(nKey), pPk.TermOf(iCol))
    {
      hide Fold;
      ghost var t := pPk.TermOf(iCol);
      var j := pPk.aiColumn[iCol];
      var i := 0;
      while i < nKey
        invariant i <= nKey && forall k :: 0 <= k < i ==> !Same(Terms(nKey)[k], t)
      {
        if aiColumn[i] == j {
          var same := EqualIgnoringCase(azColl[i], pPk.azColl[iCol]);
          if same {
            assert Same(Terms(nKey)[i], t);
            return true;
          }
        }
        i := i + 1;
      }
      r := false;
    }

    /** resizeIndexObject(): room for `n` columns; false when there is no memory. */
    method Resize(n: nat, mem: bool) returns (ok: bool)
      requires Valid() && (n <= nColumn || !isResized)
      modifies this`nColumn, this`aiColumn, this`azColl, this`aSortOrder, this`isResized
      ensures Valid()
      ensures aiColumn == old(aiColumn) || fresh(aiColumn)
      ensures azColl == old(azColl) || fresh(azColl)
      ensures aSortOrder == old(aSortOrder) || fresh(aSortOrder)
      ensures ok <==> old(nColumn) >= n || mem
      ensures nColumn == if ok && old(nColumn) < n then n else old(nColumn)
      ensures Room(old(nColumn)) && Terms(old(nColumn)) == old(Terms(nColumn))
      ensures forall k :: old(nColumn) <= k < nColumn ==> !aSortOrder[k]
      ensures nColumn == old(nColumn) ==>
                aiColumn == old(aiColumn) && azColl == old(azColl) && aSortOrder == old(aSortOrder) &&
                isResized == old(isResized)
    {
      if nColumn >= n { return true; }
      if !mem { return false; }
      var newCol, newColl, newSort := new int[n], new Key[n](_ => []), new bool[n](_ => false);
      forall i | 0 <= i < n { newCol[i] := 0; }
      forall i | 0 <= i < nColumn { newColl[i] := azColl[i]; }
      forall i | 0 <= i < nColumn { newCol[i] := aiColumn[i]; }
      forall i | 0 <= i < nColumn { newSort[i] := aSortOrder[i]; }
      aiColumn, azColl, aSortOrder := newCol, newColl, newSort;
      nColumn, isResized := n, true;
      ok := true;
    }

    /** Store a term, whose sort order is there. */
    method Put(j: nat, col: int, coll: Key)
      requires Room(j + 1)
      modifies aiColumn, azColl
      ensures Terms(j + 1) == old(Terms(j)) + [Term(col, coll, aSortOrder[j])] && Terms(j) == old(Terms(j))
      ensures forall k :: j < k < aiColumn.Length ==> aiColumn[k] == old(aiColumn[k])
      ensures forall k :: j < k < azColl.Length ==> azColl[k] == old(azColl[k])
    {
      aiColumn[j] := col;
      azColl[j] := coll;
    }

    lemma TermsAre(n: nat)
      requires Room(n)
      ensures forall k :: 0 <= k < n ==> Terms(n)[k] == TermOf(k)
    {
    }

    lemma TermAt(n: nat, k: nat)
      requires k < n && Room(n)
      ensures Terms(n)[k] == TermOf(k)
    {
    }

    /** Terms `i` to `n` are still those of `ts`. */
    ghost predicate StillAre(ts: seq<Term>, i: nat, n: nat)
      reads `aiColumn, `azColl, `aSortOrder, aiColumn, azColl, aSortOrder
    {
      n <= |ts| && Room(n) && forall k :: i <= k < n ==> TermOf(k) == ts[k]
    }

    /** Remove the terms that came before from the primary key, in place. */
    method RemoveRepeats()
      requires Valid() && 0 < nKeyCol
      modifies this`nKeyCol, this`nColumn, aiColumn, azColl, aSortOrder
      ensures Sized() && 0 < nKeyCol <= old(nKeyCol) && Terms(nKeyCol) == Dedup(old(Terms(nKeyCol)))
    {
      ghost var ts, n := Terms(nKeyCol), nColumn;
      var i, j := 1, 1;
      hide Has, Same, Dedup, Terms, StillAre;
      FirstTerm(ts);
      while i < nKeyCol
        invariant 1 <= j <= i <= nKeyCol == |ts| && nColumn == n - (i - j) && Sized()
        invariant Terms(j) == Dedup(ts[..i]) && StillAre(ts, i, nKeyCol)
      {
        j := KeepIfNew(i, j, ts);
        i := i + 1;
      }
      assert ts[..i] == ts;
      nKeyCol := j;
    }

    lemma FirstTerm(ts: seq<Term>)
      requires Room(nKeyCol) && 0 < nKeyCol && ts == Terms(nKeyCol)
      ensures Terms(1) == Dedup(ts[..1]) && StillAre(ts, 1, nKeyCol)
    {
      hide Has, Same, Dedup, Terms;
      OneTerm(ts);
      FirstTerms(nKeyCol, 1);
      TermsAre(nKeyCol);
    }

    /** Term `i` moves to place `j`, unless it is a repetition. */
    method KeepIfNew(i: nat, j: nat, ghost ts: seq<Term>) returns (j1: nat)
      requires Sized() && 1 <= j <= i < nKeyCol == |ts| && j <= nColumn && 0 < nColumn
      requires Terms(j) == Dedup(ts[..i]) && StillAre(ts, i, nKeyCol)
      modifies this`nColumn, aiColumn, azColl, aSortOrder
      ensures Sized() && j <= j1 <= j + 1 && nColumn == old(nColumn) - (j + 1 - j1)
      ensures Terms(j1) == Dedup(ts[..i + 1]) && StillAre(ts, i + 1, nKeyCol)
    {
      hide Has, Same, Dedup, Terms;
      DedupTurn(ts, i);
      var dup := IsDupColumn(j, this, i);
      if dup {
        nColumn := nColumn - 1;
        j1 := j;
      } else {
        MoveOrder(i, j, ts);
        Put(j, aiColumn[i], azColl[i]);
        j1 := j + 1;
      }
    }

    method MoveOrder(i: nat, j: nat, ghost ts: seq<Term>)
      requires Room(i + 1) && j <= i && i < |ts| && StillAre(ts, i, |ts|)
      modifies aSortOrder
      ensures Terms(j) == old(Terms(j)) && StillAre(ts, i, |ts|) && aSortOrder[j] == aSortOrder[i]
    {
      aSortOrder[j] := aSortOrder[i];
    }

    /** How many terms of the primary key the index lacks. */
    method CountMissing(pPk: Index) returns (n: nat)
      requires Valid() && pPk.Valid()
      ensures n == |Missing(Terms(nKeyCol), pPk.Terms(pPk.nKeyCol))|
    {
      ghost var key, pk := Terms(nKeyCol), pPk.Terms(pPk.nKeyCol);
      hide Has, Same, Missing, Terms;
      var i := 0;
      n := 0;
      MissingLonger(key, pk[..0]);
      while i < pPk.nKeyCol
        invariant i <= pPk.nKeyCol && n == |Missing(key, pk[..i])|
      {
        MissingTurn(key, pk, i);
        pPk.TermAt(pPk.nKeyCol, i);
        var dup := IsDupColumn(nKeyCol, pPk, i);
        if !dup { n := n + 1; }
        i := i + 1;
      }
      assert pk[..i] == pk;
    }

    /** The index ends with the rowid, which is in ascending order. */
    ghost predicate AwaitsKey()
      reads this, aSortOrder
    {
      Valid() && nColumn == nKeyCol + 1 && !isResized && !aSortOrder[nKeyCol]
    }

    /** Give an index, in the place of the rowid at its end, the terms of the primary key that it lacks. */
    method AppendPrimaryKey(pPk: Index, mem: bool) returns (ok: bool)
      requires AwaitsKey() && pPk.Valid() && ApartFrom(pPk)
      modifies this`nColumn, this`aiColumn, this`azColl, this`aSortOrder, this`isResized, this`bAscKeyBug,
               aiColumn, azColl
      ensures Valid() && ApartFrom(pPk)
      ensures aiColumn == old(aiColumn) || fresh(aiColumn)
      ensures azColl == old(azColl) || fresh(azColl)
      ensures aSortOrder == old(aSortOrder) || fresh(aSortOrder)
      ensures mem ==> ok
      ensures ok ==> HasPrimaryKey(old(Terms(nKeyCol)), old(pPk.Terms(pPk.nKeyCol)))
      ensures ok ==> bAscKeyBug == old(bAscKeyBug || pPk.Descends(Terms(nKeyCol), pPk.Terms(pPk.nKeyCol), pPk.nKeyCol))
    {
      ghost var key, pk := Terms(nKeyCol), pPk.Terms(pPk.nKeyCol);
      var n := CountMissing(pPk);
      NothingAdded(pPk, key, pk);
      hide Missing, Terms, Has, Descends;
      if n == 0 {
        nColumn := nKeyCol;
        ok := true;
      } else {
        ok := AppendTerms(pPk, key, pk, n, mem);
      }
    }

    lemma NothingAdded(pPk: Index, key: seq<Term>, pk: seq<Term>)
      ensures Missing(key, pk) == [] ==> key + Missing(key, pk) == key && !pPk.Descends(key, pk, pPk.nKeyCol)
    {
      if Missing(key, pk) == [] {
        NothingMissing(key, pk);
        hide Has, Missing;
      }
    }

    method AppendTerms(pPk: Index, ghost key: seq<Term>, ghost pk: seq<Term>, n: nat, mem: bool) returns (ok: bool)
      requires AwaitsKey() && pPk.Valid() && ApartFrom(pPk)
      modifies this`nColumn, this`aiColumn, this`azColl, this`aSortOrder, this`isResized, this`bAscKeyBug,
               aiColumn, azColl
      ensures Valid() && ApartFrom(pPk)
      ensures aiColumn == old(aiColumn) || fresh(aiColumn)
      ensures azColl == old(azColl) || fresh(azColl)
      ensures aSortOrder == old(aSortOrder) || fresh(aSortOrder)
      requires 0 < n == |Missing(key, pk)| && key == Terms(nKeyCol) && pk == pPk.Terms(pPk.nKeyCol)
      ensures mem ==> ok
      ensures ok ==> HasPrimaryKey(key, pk) && bAscKeyBug == old(bAscKeyBug || pPk.Descends(key, pk, pPk.nKeyCol))
    {
      ghost var n0 := nColumn;
      FirstTerms(n0, nKeyCol);
      TermAt(n0, nKeyCol);
      hide Missing, Terms, Has;
      ok := Resize(nKeyCol + n, mem);
      if ok {
        FirstTerms(n0, nKeyCol);
        TermAt(n0, nKeyCol);
        FillMissing(pPk, key, pk);
      }
    }

    /** The terms from the key on to the `n`-th are in ascending order. */
    ghost predicate Ascends(n: nat)
      reads this, aSortOrder
    {
      n <= aSortOrder.Length && forall k :: nKeyCol <= k < n ==> !aSortOrder[k]
    }

    /** One of the first `n` terms of the primary key that the index lacks is in descending order. */
    ghost predicate Descends(key: seq<Term>, pk: seq<Term>, n: nat)
      reads this, aSortOrder
    {
      exists k: nat :: k < n && k < |pk| && k < aSortOrder.Length && !Has(key, pk[k]) && aSortOrder[k]
    }

    method FillMissing(pPk: Index, ghost key: seq<Term>, ghost pk: seq<Term>)
      requires Valid() && pPk.Valid() && ApartFrom(pPk) && key == Terms(nKeyCol) && pk == pPk.Terms(pPk.nKeyCol)
      requires nColumn == nKeyCol + |Missing(key, pk)| && Ascends(nColumn)
      modifies this`bAscKeyBug, aiColumn, azColl
      ensures Terms(nColumn) == key + Missing(key, pk)
      ensures bAscKeyBug == (old(bAscKeyBug) || pPk.Descends(key, pk, pPk.nKeyCol))
    {
      hide Has, Same, Missing, Terms;
      var i, j := 0, nKeyCol;
      MissingLonger(key, pk[..0]);
      assert key + [] == key;
      while i < pPk.nKeyCol
        invariant i <= pPk.nKeyCol && j == nKeyCol + |Missing(key, pk[..i])| <= nColumn
        invariant Terms(j) == key + Missing(key, pk[..i]) && pPk.Terms(pPk.nKeyCol) == pk
        invariant bAscKeyBug == (old(bAscKeyBug) || pPk.Descends(key, pk, i))
      {
        MissingTurn(key, pk, i);
        pPk.TermAt(pPk.nKeyCol, i);
        j := AddIfMissing(pPk, i, j, key, pk[i], Missing(key, pk[..i]));
        i := i + 1;
      }
      assert pk[..i] == pk;
    }

    /** Term `i` of the primary key comes to place `j`, unless the index has it. */
    method AddIfMissing(pPk: Index, i: nat, j: nat, ghost key: seq<Term>, ghost t: Term,
                        ghost m: seq<Term>) returns (j1: nat)
      requires Valid() && pPk.Valid() && ApartFrom(pPk) && i < pPk.nKeyCol && t == pPk.TermOf(i)
      requires |key| == nKeyCol <= j <= nColumn && Terms(j) == key + m && (!Has(key, t) ==> j < nColumn)
      requires Ascends(nColumn)
      modifies this`bAscKeyBug, aiColumn, azColl
      ensures pPk.Terms(pPk.nKeyCol) == old(pPk.Terms(pPk.nKeyCol))
      ensures bAscKeyBug == (old(bAscKeyBug) || (!Has(key, t) && pPk.aSortOrder[i]))
      ensures j1 == (if Has(key, t) then j else j + 1)
      ensures Terms(j1) == key + if Has(key, t) then m else m + [t.(desc := false)]
    {
      hide Has, Same, Terms;
      FirstTerms(j, nKeyCol);
      assert Terms(nKeyCol) == key;
      var dup := IsDupColumn(nKeyCol, pPk, i);
      j1 := j;
      if !dup {
        Put(j, pPk.aiColumn[i], pPk.azColl[i]);
        if pPk.aSortOrder[i] { bAscKeyBug := true; }
        assert key + m + [t.(desc := false)] == key + (m + [t.(desc := false)]);
        j1 := j + 1;
      }
    }

    lemma FirstTerms(j: nat, k: nat)
      requires k <= j && Room(j)
      ensures Terms(k) == Terms(j)[..k]
    {
    }

    /** How many stored columns the primary key lacks. */
    method CountExtra(virt: seq<bool>) returns (nExtra: nat)
      requires Valid() && nColumn == nKeyCol
      ensures nExtra == |Extra(aiColumn[..nKeyCol], virt, |virt|)|
    {
      ghost var have := aiColumn[..nKeyCol];
      var i := 0;
      nExtra := 0;
      while i < |virt|
        invariant i <= |virt| && nExtra == |Extra(have, virt, i)|
      {
        var has := HasColumn(aiColumn, nKeyCol, i);
        if !has && !virt[i] { nExtra := nExtra + 1; }
        i := i + 1;
      }
    }

    lemma ColumnsAre(n: nat)
      requires Room(n)
      ensures aiColumn[..n] == Columns(Terms(n))
    {
    }

    /** Add all stored columns that the primary key lacks to its end, with the binary collating sequence. */
    method AddColumns(virt: seq<bool>, binary: Key, mem: bool) returns (ok: bool)
      requires Valid() && nColumn == nKeyCol && !isResized
      modifies this`nColumn, this`aiColumn, this`azColl, this`aSortOrder, this`isResized, aiColumn, azColl
      ensures Valid() && (mem ==> ok) && Terms(nKeyCol) == old(Terms(nKeyCol))
      ensures ok ==> Terms(nColumn) == WithColumns(old(Terms(nKeyCol)), virt, |virt|, binary)
    {
      ghost var ts, have := Terms(nKeyCol), Columns(Terms(nKeyCol));
      ColumnsAre(nKeyCol);
      hide Terms, Columns, Extra, WithColumns;
      var nExtra := CountExtra(virt);
      ok := Resize(nKeyCol + nExtra, mem);
      if ok {
        FillColumns(virt, binary, ts);
      }
    }

    method FillColumns(virt: seq<bool>, binary: Key, ghost ts: seq<Term>)
      requires Valid() && Terms(nKeyCol) == ts && nColumn == nKeyCol + |Extra(Columns(ts), virt, |virt|)| &&
               Ascends(nColumn)
      modifies aiColumn, azColl
      ensures Terms(nKeyCol) == ts && Terms(nColumn) == WithColumns(ts, virt, |virt|, binary)
    {
      hide Terms, Extra, WithColumns, Columns;
      var i, j := 0, nKeyCol;
      NoColumns(ts, virt, binary);
      while i < |virt|
        invariant i <= |virt| && j == nKeyCol + |Extra(Columns(ts), virt, i)| <= nColumn
        invariant Terms(j) == WithColumns(ts, virt, i, binary)
      {
        ColumnsTurn(ts, virt, i, binary);
        ColumnsAre(j);
        var has := HasColumn(aiColumn, j, i);
        if !has && !virt[i] {
          Put(j, i, binary);
          j := j + 1;
        }
        i := i + 1;
      }
      FirstTerms(nColumn, nKeyCol);
      ColumnsStart(ts, virt, |virt|, binary);
    }

    /** An index before and after the primary key comes to its end, and the primary key meanwhile. */
    ghost predicate IsKey(key: seq<Term>)
      reads this, aiColumn, azColl, aSortOrder
    {
      AwaitsKey() && Terms(nKeyCol) == key
    }

    ghost predicate HasPrimaryKey(key: seq<Term>, pk: seq<Term>)
      reads this, aiColumn, azColl, aSortOrder
    {
      Valid() && nKeyCol == |key| && Terms(nColumn) == key + Missing(key, pk)
    }

    ghost predicate IsPrimaryKey(pk: seq<Term>)
      reads this, aiColumn, azColl, aSortOrder
    {
      Valid() && nColumn == nKeyCol && !isResized && Terms(nKeyCol) == pk
    }

    ghost predicate In(objs: set<object>)
      reads this
    {
      this in objs && aiColumn in objs && azColl in objs && aSortOrder in objs
    }
  }

  ghost predicate AllApart(indexes: seq<Index>)
    reads indexes
  {
    forall i, j :: 0 <= i < |indexes| && 0 <= j < |indexes| && i != j ==> indexes[i].ApartFrom(indexes[j])
  }

  ghost function Arrays(indexes: seq<Index>): set<object>
    reads indexes
  {
    (set i | 0 <= i < |indexes| :: indexes[i].aiColumn as object) +
    (set i | 0 <= i < |indexes| :: indexes[i].azColl as object) +
    (set i | 0 <= i < |indexes| :: indexes[i].aSortOrder as object)
  }

  /** The first `x` indexes have the primary key at their end, the others are as they were. */
  ghost predicate Appended(indexes: seq<Index>, pPk: Index, keys: seq<seq<Term>>, pk: seq<Term>, objs: set<object>,
                           x: nat)
    reads indexes, Arrays(indexes)
  {
    |keys| == |indexes| && AllApart(indexes) &&
    (exists i :: 0 <= i < |indexes| && indexes[i] == pPk && pPk.IsPrimaryKey(pk)) &&
    (forall i :: 0 <= i < |indexes| && (x <= i || indexes[i] == pPk) ==> indexes[i].In(objs)) &&
    (forall i :: 0 <= i < |indexes| && indexes[i] != pPk ==>
       if x <= i then indexes[i].IsKey(keys[i]) else indexes[i].HasPrimaryKey(keys[i], pk))
  }

  method AppendOne(indexes: seq<Index>, pPk: Index, mem: bool, ghost keys: seq<seq<Term>>, ghost pk: seq<Term>,
                   ghost objs: set<object>, x: nat) returns (ok: bool)
    requires x < |indexes| && Appended(indexes, pPk, keys, pk, objs, x)
    modifies objs
    ensures mem ==> ok
    ensures pPk.aiColumn == old(pPk.aiColumn) && pPk.azColl == old(pPk.azColl) && pPk.aSortOrder == old(pPk.aSortOrder)
    ensures pPk.IsPrimaryKey(pk) && (ok ==> Appended(indexes, pPk, keys, pk, objs, x + 1))
  {
    hide Missing, Index.Terms;
    ok := true;
    if indexes[x] != pPk {
      ok := indexes[x].AppendPrimaryKey(pPk, mem);
    }
  }

  /** The terms of an index whose key was `key`, in a table whose primary key is `pk`: the key is there with its sort
      orders, all terms of the primary key are in it, nothing else was added, and the rowid is gone. */
  ghost predicate Covers(all: seq<Term>, key: seq<Term>, pk: seq<Term>) {
    key <= all && (forall t :: t in pk ==> Has(all, t)) && NoRepeats(all[|key|..]) &&
    (forall t :: t in all[|key|..] ==> Lists(pk, t) && !t.desc && !Has(key, t)) &&
    (NoRowid(pk) ==> NoRowid(all[|key|..]))
  }

  ghost predicate CoversKey(idx: Index, key: seq<Term>, pk: seq<Term>)
    reads idx, idx.aiColumn, idx.azColl, idx.aSortOrder
  {
    idx.Valid() && Covers(idx.Terms(idx.nColumn), key, pk)
  }

  /** The terms of the primary key as the table itself: no repeated terms among the first `n`, which are those of
      `terms` with their sort orders, and every stored column, each added one once and in order. */
  ghost predicate TableTerms(all: seq<Term>, n: nat, terms: seq<Term>, virt: seq<bool>, binary: Key) {
    n <= |all| && NoRepeats(all[..n]) && (forall t :: t in all[..n] ==> t in terms) &&
    (forall t :: Has(all[..n], t) <==> Has(terms, t)) &&
    (forall i :: 0 <= i < |virt| && !virt[i] ==> i in Columns(all)) &&
    (forall k :: n <= k < |all| ==>
       0 <= all[k].col < |virt| && !virt[all[k].col] && all[k].col !in Columns(all[..n]) && all[k].coll == binary &&
       !all[k].desc) &&
    (forall j, k :: n <= j < k < |all| ==> all[j].col < all[k].col) && (NoRowid(terms) ==> NoRowid(all))
  }

  ghost predicate IsTable(pPk: Index, terms: seq<Term>, virt: seq<bool>, binary: Key)
    reads pPk, pPk.aiColumn, pPk.azColl, pPk.aSortOrder
  {
    pPk.Valid() && TableTerms(pPk.Terms(pPk.nColumn), pPk.nKeyCol, terms, virt, binary)
  }

  lemma MissingCoversKey(key: seq<Term>, pk: seq<Term>)
    requires NoRepeats(pk)
    ensures Covers(key + Missing(key, pk), key, pk)
  {
    MissingCovers(key, pk);
    OnlyListed(Missing(key, pk), pk);
    hide Missing, Has, NoRepeats, Lists, NoRowid;
    assert (key + Missing(key, pk))[|key|..] == Missing(key, pk);
  }

  /** Terms of a primary key have its columns. */
  lemma OnlyListed(ts: seq<Term>, pk: seq<Term>)
    requires forall t :: t in ts ==> Lists(pk, t)
    ensures NoRowid(pk) ==> NoRowid(ts)
  {
    if XN_ROWID in Columns(ts) {
      var k :| 0 <= k < |ts| && Columns(ts)[k] == XN_ROWID;
      assert Lists(pk, ts[k]);
      var t := if ts[k] in pk then ts[k] else ts[k].(desc := !ts[k].desc);
      var j :| 0 <= j < |pk| && pk[j] == t;
      assert Columns(pk)[j] == XN_ROWID;
    }
  }

  lemma AppendedCovers(idx: Index, key: seq<Term>, pk: seq<Term>)
    requires NoRepeats(pk) && idx.HasPrimaryKey(key, pk)
    ensures CoversKey(idx, key, pk)
    ensures NoRowid(pk) ==> NoRowid(idx.Terms(idx.nColumn)[|key|..])
  {
    MissingCoversKey(key, pk);
    assert NoRowid(pk) ==> NoRowid((key + Missing(key, pk))[|key|..]);
    hide Missing, Index.Terms, Has, NoRepeats, Covers, NoRowid;
  }

  lemma ColumnAt(ts: seq<Term>, virt: seq<bool>, binary: Key, k: nat)
    requires |ts| <= k < |ts| + |Extra(Columns(ts), virt, |virt|)|
    ensures var e, t := Extra(Columns(ts), virt, |virt|), WithColumns(ts, virt, |virt|, binary)[k];
            t == Term(e[k - |ts|], binary, false) && t.col in e
  {
    hide Extra;
  }

  /** What the added columns are. */
  lemma AddedColumns(ts: seq<Term>, virt: seq<bool>, binary: Key)
    ensures var all := WithColumns(ts, virt, |virt|, binary);
            (forall i :: 0 <= i < |virt| && !virt[i] ==> i in Columns(all)) &&
            (forall k :: |ts| <= k < |all| ==>
               0 <= all[k].col < |virt| && !virt[all[k].col] && all[k].col !in Columns(ts) && all[k].coll == binary &&
               !all[k].desc) &&
            (forall j, k :: |ts| <= j < k < |all| ==> all[j].col < all[k].col)
  {
    var all, e := WithColumns(ts, virt, |virt|, binary), Extra(Columns(ts), virt, |virt|);
    ExtraCovers(Columns(ts), virt, |virt|);
    ColumnsJoin(ts, virt, |virt|, binary);
    hide Extra, Columns, WithColumns;
    forall k | |ts| <= k < |all|
      ensures all[k] == Term(e[k - |ts|], binary, false) && e[k - |ts|] in e
    {
      ColumnAt(ts, virt, binary, k);
    }
  }

  lemma DedupLacksRowid(terms: seq<Term>)
    ensures NoRowid(terms) ==> NoRowid(Dedup(terms))
  {
    DedupKeeps(terms);
    OnlyListed(Dedup(terms), terms);
  }

  lemma NoRowidAdded(ts: seq<Term>, virt: seq<bool>, binary: Key)
    ensures NoRowid(ts) ==> NoRowid(WithColumns(ts, virt, |virt|, binary))
  {
    ExtraCovers(Columns(ts), virt, |virt|);
    ColumnsJoin(ts, virt, |virt|, binary);
    hide Extra, Columns, WithColumns;
  }

  /** Without repetitions and with the columns that it lacks, the primary key is the table. */
  lemma ExtendedIsTable(terms: seq<Term>, virt: seq<bool>, binary: Key)
    ensures TableTerms(WithColumns(Dedup(terms), virt, |virt|, binary), |Dedup(terms)|, terms, virt, binary)
  {
    var ts := Dedup(terms);
    DedupKeeps(terms);
    AddedColumns(ts, virt, binary);
    ColumnsStart(ts, virt, |virt|, binary);
    OnlyListed(ts, terms);
    NoRowidAdded(ts, virt, binary);
    hide Dedup, NoRowid, Extra, Has, NoRepeats, Columns, WithColumns;
  }

  /** What a column does on a NULL: nothing, abort, or another of the conflict clauses. */
  datatype OnConflict = OE_None | OE_Abort | OE_Other(code: int)

  /** No column of a primary key accepts a NULL any more, unless the table is an imposter; the clauses that were there
      stay, and no other column changes. */
  ghost predicate IsMarked(before: seq<OnConflict>, after: seq<OnConflict>, primKey: seq<bool>, imposter: bool)
    requires |primKey| == |before|
  {
    |after| == |before| &&
    forall i :: 0 <= i < |before| ==>
      (before[i] != OE_None || imposter || !primKey[i] ==> after[i] == before[i]) &&
      (primKey[i] && !imposter ==> after[i] != OE_None) && (after[i] != before[i] ==> after[i] == OE_Abort)
  }

  method MarkNotNull(notNull: array<OnConflict>, primKey: seq<bool>, imposter: bool)
    requires |primKey| == notNull.Length
    modifies notNull
    ensures IsMarked(old(notNull[..]), notNull[..], primKey, imposter)
  {
    if imposter { return; }
    for i := 0 to notNull.Length
      invariant forall k :: 0 <= k < i ==>
                  notNull[k] == if primKey[k] && old(notNull[k]) == OE_None then OE_Abort else old(notNull[k])
      invariant forall k :: i <= k < notNull.Length ==> notNull[k] == old(notNull[k])
    {
      if primKey[i] && notNull[i] == OE_None { notNull[i] := OE_Abort; }
    }
  }

  /** The indexes of a new table: the primary key has the given terms, `keys` are the keys of all others, and `objs`
      is what may change. */
  ghost predicate IsNew(indexes: seq<Index>, pPk: Index, terms: seq<Term>, keys: seq<seq<Term>>, objs: set<object>)
    reads indexes, Arrays(indexes)
  {
    |keys| == |indexes| && AllApart(indexes) &&
    (exists i :: 0 <= i < |indexes| && indexes[i] == pPk && pPk.Valid() && 0 < pPk.nKeyCol && !pPk.isResized &&
       pPk.Terms(pPk.nKeyCol) == terms) &&
    forall i :: 0 <= i < |indexes| ==> indexes[i].In(objs) && (indexes[i] != pPk ==> indexes[i].IsKey(keys[i]))
  }

  /** The indexes of a WITHOUT ROWID table. */
  ghost predicate IsConverted(indexes: seq<Index>, pPk: Index, keys: seq<seq<Term>>, terms: seq<Term>, virt: seq<bool>,
                              binary: Key)
    reads indexes, Arrays(indexes), pPk, pPk.aiColumn, pPk.azColl, pPk.aSortOrder
  {
    |keys| == |indexes| && IsTable(pPk, terms, virt, binary) &&
    (forall i :: 0 <= i < |indexes| && indexes[i] != pPk ==> CoversKey(indexes[i], keys[i], pPk.Terms(pPk.nKeyCol))) &&
    (NoRowid(terms) ==>
       NoRowid(pPk.Terms(pPk.nColumn)) &&
       forall i :: 0 <= i < |indexes| && indexes[i] != pPk ==>
         NoRowid(indexes[i].Terms(indexes[i].nColumn)[|keys[i]|..]))
  }

  /** convertToWithoutRowidTable(), for a table whose primary key is one of its indexes. `mem` answers the requests
      for memory. */
  method ConvertToWithoutRowid(indexes: seq<Index>, pPk: Index, virt: seq<bool>, notNull: array<OnConflict>,
                               primKey: seq<bool>, imposter: bool, binary: Key, mem: nat -> bool,
                               ghost terms: seq<Term>, ghost keys: seq<seq<Term>>,
                               ghost objs: set<object>) returns (ok: bool)
    requires IsNew(indexes, pPk, terms, keys, objs) && |primKey| == notNull.Length && notNull !in objs
    modifies objs, notNull
    ensures IsMarked(old(notNull[..]), notNull[..], primKey, imposter)
    ensures (forall n :: mem(n)) ==> ok
    ensures ok ==> IsConverted(indexes, pPk, keys, terms, virt, binary)
  {
    hide IsMarked, IsConverted, Index.Terms;
    MarkNotNull(notNull, primKey, imposter);
    ok := ConvertIndexes(indexes, pPk, virt, binary, mem, terms, keys, objs);
  }

  method ConvertIndexes(indexes: seq<Index>, pPk: Index, virt: seq<bool>, binary: Key, mem: nat -> bool,
                        ghost terms: seq<Term>, ghost keys: seq<seq<Term>>, ghost objs: set<object>) returns (ok: bool)
    requires IsNew(indexes, pPk, terms, keys, objs)
    modifies objs
    ensures (forall n :: mem(n)) ==> ok
    ensures ok ==> IsConverted(indexes, pPk, keys, terms, virt, binary)
  {
    hide *;
    ghost var pk := StartPrimaryKey(indexes, pPk, terms, keys, objs);
    ok := true;
    for x := 0 to |indexes|
      invariant Appended(indexes, pPk, keys, pk, objs, x)
    {
      ok := AppendOne(indexes, pPk, mem(x), keys, pk, objs, x);
      if !ok { return; }
    }
    ok := FinishPrimaryKey(indexes, pPk, virt, binary, mem(|indexes|), keys, pk, objs, terms);
  }

  /** Without repeated terms, the primary key is ready to be appended to the others. */
  method StartPrimaryKey(indexes: seq<Index>, pPk: Index, ghost terms: seq<Term>, ghost keys: seq<seq<Term>>,
                         ghost objs: set<object>)
    returns (ghost pk: seq<Term>)
    requires IsNew(indexes, pPk, terms, keys, objs)
    modifies objs
    ensures pk == Dedup(terms) && NoRepeats(pk) && Appended(indexes, pPk, keys, pk, objs, 0)
  {
    DedupKeeps(terms);
    hide Index.Terms, Dedup, Has, NoRepeats;
    pPk.RemoveRepeats();
    pPk.nColumn := pPk.nKeyCol;
    pk := pPk.Terms(pPk.nKeyCol);
  }

  /** At last, the primary key gets the other columns. */
  method FinishPrimaryKey(indexes: seq<Index>, pPk: Index, virt: seq<bool>, binary: Key, mem: bool,
                          ghost keys: seq<seq<Term>>,
                          ghost pk: seq<Term>, ghost objs: set<object>, ghost terms: seq<Term>) returns (ok: bool)
    requires Appended(indexes, pPk, keys, pk, objs, |indexes|) && pk == Dedup(terms) && NoRepeats(pk)
    modifies objs
    ensures mem ==> ok
    ensures ok ==> IsConverted(indexes, pPk, keys, terms, virt, binary)
  {
    ExtendedIsTable(terms, virt, binary);
    DedupLacksRowid(terms);
    NoRowidAdded(pk, virt, binary);
    hide Index.Terms, Dedup, Missing, Has, NoRepeats, CoversKey, TableTerms, WithColumns, NoRowid;
    ok := pPk.AddColumns(virt, binary, mem);
    if ok {
      forall i | 0 <= i < |indexes| && indexes[i] != pPk
        ensures CoversKey(indexes[i], keys[i], pk)
        ensures NoRowid(pk) ==> NoRowid(indexes[i].Terms(indexes[i].nColumn)[|keys[i]|..])
      {
        AppendedCovers(indexes[i], keys[i], pk);
      }
    }
  }
}
