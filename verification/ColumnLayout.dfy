/** Where the columns of a table are stored: virtual columns are not, and come after all others. */
module ColumnLayout {

  /** How many of the first `n` columns are virtual. `virt[i]` says whether column `i` is. */
  function Virtuals(virt: seq<bool>, n: nat): (v: nat)
    requires n <= |virt|
    ensures v <= n
  {
    if n == 0 then 0 else Virtuals(virt, n - 1) + if virt[n - 1] then 1 else 0
  }

  /** How many of the first `n` columns are stored. */
  function Stored(virt: seq<bool>, n: nat): nat
    requires n <= |virt|
  {
    n - Virtuals(virt, n)
  }

  /** The number of stored columns, nNVCol. */
  function StoredColumns(virt: seq<bool>): nat {
    Stored(virt, |virt|)
  }

  /** The storage column of table column `i`. */
  function StorageOf(virt: seq<bool>, i: nat): nat
    requires i < |virt|
  {
    if virt[i] then StoredColumns(virt) + Virtuals(virt, i) else Stored(virt, i)
  }

  lemma {:induction false} Grows(virt: seq<bool>, i: nat, j: nat)
    requires i <= j <= |virt|
    ensures Virtuals(virt, i) <= Virtuals(virt, j) && Stored(virt, i) <= Stored(virt, j)
    decreases j
  {
    if i < j {
      Grows(virt, i, j - 1);
    }
  }

  /** Columns of one kind keep their order, and every stored column comes before every virtual one. */
  lemma InOrder(virt: seq<bool>, i: nat, j: nat)
    requires i < j < |virt|
    ensures virt[i] == virt[j] ==> StorageOf(virt, i) < StorageOf(virt, j)
    ensures !virt[i] && virt[j] ==> StorageOf(virt, i) < StoredColumns(virt) <= StorageOf(virt, j)
    ensures virt[i] && !virt[j] ==> StorageOf(virt, j) < StoredColumns(virt) <= StorageOf(virt, i)
  {
    Grows(virt, i + 1, j);
    Grows(virt, i + 1, |virt|);
    Grows(virt, j + 1, |virt|);
  }

  lemma StorageInRange(virt: seq<bool>, i: nat)
    requires i < |virt|
    ensures StorageOf(virt, i) < |virt| && (virt[i] <==> StoredColumns(virt) <= StorageOf(virt, i))
  {
    Grows(virt, i + 1, |virt|);
  }

  /** Different columns have different places, so that the places are a permutation of the columns. */
  lemma OnePlaceEach(virt: seq<bool>, i: nat, j: nat)
    requires i < |virt| && j < |virt|
    ensures StorageOf(virt, i) == StorageOf(virt, j) <==> i == j
  {
    if i < j {
      InOrder(virt, i, j);
    } else if j < i {
      InOrder(virt, j, i);
    }
  }

  /** The column with a given number of columns of its kind before it. */
  lemma {:induction false} ColumnWithRank(virt: seq<bool>, kind: bool, rank: nat, n: nat) returns (i: nat)
    requires n <= |virt| && rank < if kind then Virtuals(virt, n) else Stored(virt, n)
    ensures i < n && virt[i] == kind && rank == if kind then Virtuals(virt, i) else Stored(virt, i)
    decreases n
  {
    if rank < if kind then Virtuals(virt, n - 1) else Stored(virt, n - 1) {
      i := ColumnWithRank(virt, kind, rank, n - 1);
    } else {
      i := n - 1;
    }
  }

  /** Every place is used. */
  lemma EveryPlace(virt: seq<bool>, s: nat) returns (i: nat)
    requires s < |virt|
    ensures i < |virt| && StorageOf(virt, i) == s
  {
    if s < StoredColumns(virt) {
      i := ColumnWithRank(virt, false, s, |virt|);
    } else {
      i := ColumnWithRank(virt, true, s - StoredColumns(virt), |virt|);
    }
  }

  /** sqlite3TableColumnToStorage(). A negative number is the rowid. `hasVirtual` is the flag of the table. */
  method TableColumnToStorage(virt: seq<bool>, hasVirtual: bool, nNVCol: nat, iCol: int) returns (r: int)
    requires iCol < |virt| && nNVCol == StoredColumns(virt) && (hasVirtual <==> true in virt)
    ensures r == if iCol < 0 then iCol else StorageOf(virt, iCol)
  {
    if !hasVirtual || iCol < 0 {
      if 0 <= iCol { NoVirtuals(virt, iCol); }
      return iCol;
    }
    var i, n := 0, 0;
    while i < iCol
      invariant 0 <= i <= iCol && n == Stored(virt, i)
    {
      if !virt[i] { n := n + 1; }
      i := i + 1;
    }
    r := if virt[i] then nNVCol + i - n else n;
  }

  lemma {:induction false} NoVirtuals(virt: seq<bool>, n: nat)
    requires n <= |virt| && true !in virt
    ensures Virtuals(virt, n) == 0
  {
    if n > 0 {
      NoVirtuals(virt, n - 1);
    }
  }

  /** sqlite3StorageColumnToTable(): the column that is stored at a place. The bound of the loop grows with every
      virtual column that it passes, and still stays inside the table. */
  method StorageColumnToTable(virt: seq<bool>, hasVirtual: bool, iCol: int) returns (r: int)
    requires iCol < StoredColumns(virt) && (hasVirtual <==> true in virt)
    ensures iCol < 0 ==> r == iCol
    ensures 0 <= iCol ==> 0 <= r < |virt| && !virt[r] && StorageOf(virt, r) == iCol
  {
    r := iCol;
    if hasVirtual {
      var i := 0;
      while i <= r
        invariant 0 <= i <= |virt| && r == iCol + Virtuals(virt, i)
        invariant i <= r + 1 || iCol < 0
        invariant 0 < i && r < i ==> iCol < 0 || (i == r + 1 && !virt[r])
        invariant iCol < 0 ==> i == 0
        decreases |virt| - i
      {
        Grows(virt, i, |virt|);
        if virt[i] { r := r + 1; }
        i := i + 1;
      }
    } else if 0 <= iCol {
      NoVirtuals(virt, iCol);
      NoVirtuals(virt, |virt|);
    }
  }

  /** Going to storage and back leads to the same column, for every stored column and the rowid. */
  method RoundTrip(virt: seq<bool>, iCol: int) returns (r: int)
    requires iCol < |virt| && (0 <= iCol ==> !virt[iCol])
    ensures r == iCol
  {
    var hasVirtual := true in virt;
    var s := TableColumnToStorage(virt, hasVirtual, StoredColumns(virt), iCol);
    if 0 <= iCol { StorageInRange(virt, iCol); }
    r := StorageColumnToTable(virt, hasVirtual, s);
    if 0 <= iCol { OnePlaceEach(virt, iCol, r); }
  }
}
