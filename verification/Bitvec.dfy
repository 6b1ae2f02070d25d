/** A set of page numbers in a fixed-size node: a bitmap for small ranges, a hash table while there are few
    bits, and an array of nodes for parts of the range after that. */
module Bitvecs {
  import opened Arith

  const NELEM := 496
  const NBIT := 3968
  const NINT := 124
  const MXHASH := 62
  const NPTR := 62
  const U32_MAX := 0xffff_ffff

  // -------------------- the bitmap --------------------

  function Mask(k: nat): bv8
    requires k < 8
  {
    (1 as bv8) << k
  }

  predicate HasBit(b: bv8, k: nat)
    requires k < 8
  {
    (b & Mask(k)) != 0
  }

  function WithBit(b: bv8, k: nat): bv8
    requires k < 8
  {
    b | Mask(k)
  }

  function WithoutBit(b: bv8, k: nat): bv8
    requires k < 8
  {
    b & !Mask(k)
  }

  lemma MaskBits(b: bv8, j: nat, k: nat)
    requires j < 8 && k < 8
    ensures HasBit(WithBit(b, j), k) <==> j == k || HasBit(b, k)
    ensures HasBit(WithoutBit(b, j), k) <==> j != k && HasBit(b, k)
  {
    assert Mask(0) == 1 && Mask(1) == 2 && Mask(2) == 4 && Mask(3) == 8;
    assert Mask(4) == 16 && Mask(5) == 32 && Mask(6) == 64 && Mask(7) == 128;
    assert j == 0 || j == 1 || j == 2 || j == 3 || j == 4 || j == 5 || j == 6 || j == 7;
    assert k == 0 || k == 1 || k == 2 || k == 3 || k == 4 || k == 5 || k == 6 || k == 7;
  }

  predicate TestBit(m: seq<bv8>, i: nat)
    requires i < 8 * |m|
  {
    HasBit(m[i / 8], i % 8)
  }

  function BitSet(m: seq<bv8>, i: nat): (u: seq<bv8>)
    requires i < 8 * |m|
    ensures |u| == |m|
  {
    m[i / 8 := WithBit(m[i / 8], i % 8)]
  }

  function BitCleared(m: seq<bv8>, i: nat): (u: seq<bv8>)
    requires i < 8 * |m|
    ensures |u| == |m|
  {
    m[i / 8 := WithoutBit(m[i / 8], i % 8)]
  }

  /** What setting and clearing a bit in its byte does to the others. */
  lemma BitWritten(m: seq<bv8>, i: nat, x: nat)
    requires i < 8 * |m| && x < 8 * |m|
    ensures TestBit(BitSet(m, i), x) <==> x == i || TestBit(m, x)
    ensures TestBit(BitCleared(m, i), x) <==> x != i && TestBit(m, x)
  {
    MaskBits(m[i / 8], i % 8, x % 8);
    hide HasBit, WithBit, WithoutBit;
  }

  /** The bitmap holds the set. Bit `x` of the set is bit `x - 1` of the map. */
  ghost predicate IsBitmap(m: seq<bv8>, bits: set<nat>) {
    |m| == NELEM && (forall x :: x in bits ==> 1 <= x <= NBIT) &&
    forall i: nat :: i < NBIT ==> (TestBit(m, i) <==> i + 1 in bits)
  }

  lemma BitmapSet(m: seq<bv8>, bits: set<nat>, i: nat)
    requires IsBitmap(m, bits) && i < NBIT
    ensures IsBitmap(BitSet(m, i), bits + {i + 1})
  {
    hide TestBit, BitSet;
    var u := BitSet(m, i);
    forall x: nat | x < NBIT
      ensures TestBit(u, x) <==> x + 1 in bits + {i + 1}
    {
      BitWritten(m, i, x);
    }
  }

  lemma BitmapClear(m: seq<bv8>, bits: set<nat>, i: nat)
    requires IsBitmap(m, bits) && i < NBIT
    ensures IsBitmap(BitCleared(m, i), bits - {i + 1})
  {
    hide TestBit, BitCleared;
    var u := BitCleared(m, i);
    forall x: nat | x < NBIT
      ensures TestBit(u, x) <==> x + 1 in bits - {i + 1}
    {
      BitWritten(m, i, x);
    }
  }

  lemma ZeroByte(k: nat)
    requires k < 8
    ensures !HasBit(0, k)
  {
    hide Mask;
  }

  lemma BitmapEmpty()
    ensures IsBitmap(seq(NELEM, _ => 0), {})
  {
    var m: seq<bv8> := seq(NELEM, _ => 0);
    forall i: nat | i < NBIT
      ensures !TestBit(m, i)
    {
      assert m[i / 8] == 0;
      ZeroByte(i % 8);
    }
  }

  // -------------------- the hash table --------------------

  /** Where the search for value `v` starts. */
  function Home(v: nat): (h: nat)
    requires 0 < v
    ensures h < NINT
  {
    (v - 1) % NINT
  }

  /** The slot `d` places after `h`, going round. */
  function Slot(h: nat, d: nat): (k: nat)
    requires h < NINT && d <= NINT
    ensures k < NINT
  {
    if h + d < NINT then h + d else h + d - NINT
  }

  /** How far slot `k` is after `h`. */
  function Distance(h: nat, k: nat): (d: nat)
    requires h < NINT && k < NINT
    ensures d < NINT && Slot(h, d) == k
  {
    if h <= k then k - h else k - h + NINT
  }

  function Occupied(t: seq<nat>, n: nat): set<nat> {
    set k: nat | k < n && k < |t| && t[k] != 0
  }

  /** No slot is free from the home of `v` up to distance `d`. */
  ghost predicate Packed(t: seq<nat>, v: nat, d: nat)
    requires |t| == NINT && 0 < v && d <= NINT
  {
    forall e: nat :: e < d ==> t[Slot(Home(v), e)] != 0
  }

  /** The slots hold the set, each value once, where a search finds it. */
  ghost predicate IsTable(t: seq<nat>, bits: set<nat>) {
    |t| == NINT && 0 !in bits &&
    (forall k: nat :: k < NINT && t[k] != 0 ==> t[k] in bits && Packed(t, t[k], Distance(Home(t[k]), k))) &&
    (forall v :: v in bits ==> v in t) &&
    (forall j: nat, k: nat :: j < k < NINT && t[j] == t[k] ==> t[j] == 0)
  }

  lemma {:induction false} AllOccupied(t: seq<nat>, n: nat)
    requires n <= |t| && forall k: nat :: k < n ==> t[k] != 0
    ensures |Occupied(t, n)| == n
  {
    if n > 0 {
      AllOccupied(t, n - 1);
      OccupiedGrows(t, n - 1);
    }
  }

  lemma OccupiedGrows(t: seq<nat>, n: nat)
    requires n < |t|
    ensures |Occupied(t, n + 1)| == |Occupied(t, n)| + if t[n] != 0 then 1 else 0
  {
    assert Occupied(t, n + 1) == if t[n] != 0 then Occupied(t, n) + {n} else Occupied(t, n);
  }

  lemma {:induction false} OccupiedBound(t: seq<nat>, n: nat)
    requires |t| == NINT && n <= NINT
    ensures |Occupied(t, n)| <= |Occupied(t, NINT)|
    decreases NINT - n
  {
    if n < NINT {
      OccupiedGrows(t, n);
      OccupiedBound(t, n + 1);
    }
  }

  /** A search meets no free slot only when all slots are occupied. */
  lemma PackedIsFull(t: seq<nat>, v: nat)
    requires |t| == NINT && 0 < v && Packed(t, v, NINT)
    ensures |Occupied(t, NINT)| == NINT
  {
    hide Home;
    forall k: nat | k < NINT
      ensures t[k] != 0
    {
      assert t[Slot(Home(v), Distance(Home(v), k))] != 0;
    }
    AllOccupied(t, NINT);
  }

  /** While fewer than NINT slots are occupied, every search meets a free slot. */
  lemma FreeSlot(t: seq<nat>, v: nat)
    requires |t| == NINT && |Occupied(t, NINT)| < NINT && 0 < v
    ensures !Packed(t, v, NINT)
  {
    if Packed(t, v, NINT) {
      PackedIsFull(t, v);
    }
  }

  /** A search that meets a free slot has seen every place where the value can be. */
  lemma NotInTable(t: seq<nat>, bits: set<nat>, v: nat, d: nat)
    requires IsTable(t, bits) && 0 < v && d < NINT && Packed(t, v, d) && t[Slot(Home(v), d)] == 0
    requires forall e: nat :: e < d ==> t[Slot(Home(v), e)] != v
    ensures v !in bits
  {
    hide Home;
    forall k: nat | k < NINT
      ensures t[k] != v
    {
      var dk := Distance(Home(v), k);
      if d < dk && t[k] == v {
        assert false;
      }
    }
  }

  /** Putting a new value into the first free slot of its search. */
  lemma TableInsert(t: seq<nat>, bits: set<nat>, v: nat, d: nat)
    requires IsTable(t, bits) && 0 < v && v !in bits && d < NINT && Packed(t, v, d) && t[Slot(Home(v), d)] == 0
    ensures IsTable(t[Slot(Home(v), d) := v], bits + {v})
    ensures |Occupied(t[Slot(Home(v), d) := v], NINT)| == |Occupied(t, NINT)| + 1
  {
    var h := Slot(Home(v), d);
    var u := t[h := v];
    hide Home;
    forall k: nat | k < NINT && u[k] != 0
      ensures u[k] in bits + {v} && Packed(u, u[k], Distance(Home(u[k]), k))
    {
      if k == h {
        assert Distance(Home(v), h) == d;
      } else {
        assert Packed(t, t[k], Distance(Home(t[k]), k));
      }
    }
    forall x | x in bits + {v}
      ensures x in u
    {
      if x == v {
        assert u[h] == v;
      } else {
        var k: nat :| k < NINT && t[k] == x;
        assert u[k] == x;
      }
    }
    assert Occupied(u, NINT) == Occupied(t, NINT) + {h};
  }

  lemma IsInTable(t: seq<nat>, bits: set<nat>, k: nat)
    requires IsTable(t, bits) && k < NINT && t[k] != 0
    ensures t[k] in bits
  {
  }

  /** The values in the first slots. */
  ghost function Values(t: seq<nat>, n: nat): set<nat> {
    set k: nat | k < n && k < |t| && t[k] != 0 :: t[k]
  }

  lemma ValuesGrow(t: seq<nat>, n: nat)
    requires n < |t|
    ensures Values(t, n + 1) == if t[n] != 0 then Values(t, n) + {t[n]} else Values(t, n)
  {
  }

  lemma TableValues(t: seq<nat>, bits: set<nat>)
    requires IsTable(t, bits)
    ensures |t| == NINT && Values(t, NINT) == bits
  {
    forall x | x in bits
      ensures x in Values(t, NINT)
    {
      var k: nat :| k < NINT && t[k] == x;
    }
  }

  lemma TableValue(t: seq<nat>, bits: set<nat>, n: nat)
    requires IsTable(t, bits) && n < NINT && t[n] != 0
    ensures t[n] in bits && t[n] !in Values(t, n)
  {
  }

  lemma TableEmpty()
    ensures IsTable(seq(NINT, _ => 0), {}) && Occupied(seq(NINT, _ => 0), NINT) == {}
  {
  }

  /** Search for a value from its home on, up to a free slot. */
  method Probe(t: seq<nat>, v: nat) returns (h: nat, ghost d: nat)
    requires |t| == NINT && |Occupied(t, NINT)| < NINT && 0 < v
    ensures d < NINT && h == Slot(Home(v), d) && Packed(t, v, d) && (t[h] == 0 || t[h] == v)
    ensures forall e: nat :: e < d ==> t[Slot(Home(v), e)] != v
  {
    FreeSlot(t, v);
    hide Occupied;
    h, d := Home(v), 0;
    while t[h] != 0
      invariant d < NINT && h == Slot(Home(v), d) && Packed(t, v, d)
      invariant forall e: nat :: e < d ==> t[Slot(Home(v), e)] != v
      decreases NINT - d
    {
      if t[h] == v { return; }
      h, d := if h + 1 >= NINT then 0 else h + 1, d + 1;
    }
  }

  /** The first free slot from the home of a value on. */
  method FirstFree(t: seq<nat>, v: nat) returns (h: nat, ghost d: nat)
    requires |t| == NINT && |Occupied(t, NINT)| < NINT && 0 < v
    ensures d < NINT && h == Slot(Home(v), d) && Packed(t, v, d) && t[h] == 0
  {
    FreeSlot(t, v);
    hide Occupied;
    h, d := Home(v), 0;
    while t[h] != 0
      invariant d < NINT && h == Slot(Home(v), d) && Packed(t, v, d)
      decreases NINT - d
    {
      h, d := if h + 1 >= NINT then 0 else h + 1, d + 1;
    }
  }

  lemma ValuesIn(t: seq<nat>, bits: set<nat>, n: nat)
    requires IsTable(t, bits)
    ensures Values(t, n) <= bits
  {
  }

  /** One turn of building a table again from its old slots `t`, without the value `i`. */
  lemma RebuildStep(t: seq<nat>, bits: set<nat>, i: nat, j: nat)
    requires IsTable(t, bits) && j < NINT
    ensures |Occupied(t, j)| <= |Occupied(t, j + 1)| <= |Occupied(t, NINT)|
    ensures if t[j] == 0 || t[j] == i then Values(t, j + 1) - {i} == Values(t, j) - {i}
            else Values(t, j + 1) - {i} == Values(t, j) - {i} + {t[j]} && t[j] !in Values(t, j) &&
                 |Occupied(t, j + 1)| == |Occupied(t, j)| + 1
  {
    hide Occupied;
    OccupiedGrows(t, j);
    OccupiedBound(t, j + 1);
    ValuesGrow(t, j);
    if t[j] != 0 {
      TableValue(t, bits, j);
    }
  }

  /** The search decides membership. */
  lemma ProbeDecides(t: seq<nat>, bits: set<nat>, v: nat, d: nat)
    requires IsTable(t, bits) && 0 < v && d < NINT && Packed(t, v, d)
    requires t[Slot(Home(v), d)] == 0 || t[Slot(Home(v), d)] == v
    requires forall e: nat :: e < d ==> t[Slot(Home(v), e)] != v
    ensures v in bits <==> t[Slot(Home(v), d)] == v
  {
    if t[Slot(Home(v), d)] == 0 {
      NotInTable(t, bits, v, d);
    } else {
      IsInTable(t, bits, Slot(Home(v), d));
    }
  }

  // -------------------- sizes --------------------

  /** How many bits each of the NPTR parts of a range holds. */
  function Divisor(iSize: nat): (d: nat)
    requires iSize > NBIT
    ensures NBIT <= d < iSize && iSize <= NPTR * d
  {
    var d := iSize / NPTR + if iSize % NPTR != 0 then 1 else 0;
    if d < NBIT then NBIT else d
  }

  /** The longest search path of nodes for a range. */
  function Depth(iSize: nat): nat
    decreases iSize
  {
    if iSize <= NBIT then 1 else 1 + Depth(Divisor(iSize))
  }

  lemma DepthMonotone(a: nat, b: nat)
    requires a <= b
    ensures Depth(a) <= Depth(b)
    decreases b
  {
    if NBIT < a {
      assert Divisor(a) <= Divisor(b);
      DepthMonotone(Divisor(a), Divisor(b));
    }
  }

  /** Five nodes are enough for every 32-bit size. */
  lemma FiveNodes(iSize: nat)
    requires iSize <= U32_MAX
    ensures Depth(iSize) <= 5
  {
    DepthMonotone(iSize, U32_MAX);
    assert Divisor(U32_MAX) == 69273667;
    assert Divisor(69273667) == 1117318;
    assert Divisor(1117318) == 18022;
    assert Divisor(18022) == NBIT;
    assert Depth(NBIT) == 1 && Depth(18022) == 2 && Depth(1117318) == 3 && Depth(69273667) == 4;
  }

  // -------------------- the parts of a range --------------------

  function Bin(x: nat, d: nat): nat
    requires 0 < x && 0 < d
  {
    (x - 1) / d
  }

  function Rest(x: nat, d: nat): (y: nat)
    requires 0 < x && 0 < d
    ensures 1 <= y <= d
  {
    (x - 1) % d + 1
  }

  lemma BinInRange(x: nat, d: nat)
    requires 0 < x <= NPTR * d && 0 < d
    ensures Bin(x, d) < NPTR
  {
    QuotientBound(x - 1, d, NPTR);
  }

  /** The part and the place in it determine the bit. */
  lemma BinRest(x: nat, y: nat, d: nat)
    requires 0 < x && 0 < y && 0 < d && Bin(x, d) == Bin(y, d) && Rest(x, d) == Rest(y, d)
    ensures x == y
  {
    assert x - 1 == d * Bin(x, d) + Rest(x, d) - 1;
    assert y - 1 == d * Bin(y, d) + Rest(y, d) - 1;
  }

  ghost predicate InParts(x: nat, d: nat, parts: seq<set<nat>>)
    requires 0 < x && 0 < d
  {
    Bin(x, d) < |parts| && Rest(x, d) in parts[Bin(x, d)]
  }

  /** The set whose parts are given. */
  ghost function Gather(iSize: nat, d: nat, parts: seq<set<nat>>): set<nat>
    requires 0 < d
  {
    set x: nat | 1 <= x <= iSize && InParts(x, d, parts)
  }

  lemma GatherEmpty(iSize: nat, d: nat, n: nat)
    requires 0 < d
    ensures Gather(iSize, d, seq(n, _ => {})) == {}
  {
    hide Bin, Rest;
  }

  /** Changing one part changes one bit. */
  lemma GatherOne(iSize: nat, d: nat, parts: seq<set<nat>>, i: nat)
    requires 0 < d && 1 <= i <= iSize && Bin(i, d) < |parts|
    ensures Gather(iSize, d, parts[Bin(i, d) := parts[Bin(i, d)] + {Rest(i, d)}]) == Gather(iSize, d, parts) + {i}
    ensures Gather(iSize, d, parts[Bin(i, d) := parts[Bin(i, d)] - {Rest(i, d)}]) == Gather(iSize, d, parts) - {i}
  {
    var j, y := Bin(i, d), Rest(i, d);
    var added, removed := parts[j := parts[j] + {y}], parts[j := parts[j] - {y}];
    forall x: nat | 1 <= x <= iSize
      ensures InParts(x, d, added) <==> x == i || InParts(x, d, parts)
      ensures InParts(x, d, removed) <==> x != i && InParts(x, d, parts)
    {
      if Bin(x, d) == j && Rest(x, d) == y {
        BinRest(x, i, d);
      }
      hide Bin, Rest;
    }
    hide InParts;
  }

  lemma GatherRange(iSize: nat, d: nat, parts: seq<set<nat>>)
    requires 0 < d
    ensures forall x :: x in Gather(iSize, d, parts) ==> 1 <= x <= iSize
  {
  }

  lemma GatherLess(iSize: nat, d: nat, parts: seq<set<nat>>, j: nat, part: set<nat>)
    requires 0 < d && j < |parts| && part <= parts[j]
    ensures Gather(iSize, d, parts[j := part]) <= Gather(iSize, d, parts)
  {
    hide Bin, Rest;
    forall x: nat | 1 <= x <= iSize && InParts(x, d, parts[j := part])
      ensures InParts(x, d, parts)
    {
    }
  }

  /** Every request for memory in a range of them was answered. */
  ghost predicate Granted(mem: nat -> bool, from: nat, to: nat) {
    forall k: nat :: from <= k < to ==> mem(k)
  }

  lemma GrantedTogether(mem: nat -> bool, a: nat, b: nat, c: nat)
    requires a <= b <= c
    ensures Granted(mem, a, c) <==> Granted(mem, a, b) && Granted(mem, b, c)
  {
  }

  class Bitvec {
    var iSize: nat
    var nSet: nat
    var iDivisor: nat
    // One of these is in use.
    var aBitmap: seq<bv8>
    var aHash: seq<nat>
    var apSub: seq<Bitvec?>
    // The nodes of this set, the set itself, and the sets of its parts.
    ghost var Repr: set<object>
    ghost var Bits: set<nat>
    ghost var Parts: seq<set<nat>>

    ghost predicate Valid()
      reads this, Repr
      ensures Valid() ==> this in Repr
      decreases Repr
    {
      this in Repr && iSize <= U32_MAX && (forall x :: x in Bits ==> 1 <= x <= iSize) &&
      if iSize <= NBIT then iDivisor == 0 && Repr == {this} && IsBitmap(aBitmap, Bits)
      else if iDivisor == 0 then Repr == {this} && IsTable(aHash, Bits) && nSet == |Occupied(aHash, NINT)| < NINT
      else
        iDivisor == Divisor(iSize) && |apSub| == |Parts| == NPTR && Bits == Gather(iSize, iDivisor, Parts) &&
        (forall j: nat :: j < NPTR ==> HasPart(apSub[j], Parts[j])) &&
        (forall j: nat, k: nat ::
           j < k < NPTR && apSub[j] != null && apSub[k] != null ==> apSub[j].Repr !! apSub[k].Repr)
    }

    /** A node for one part of the range, which is missing while the part is empty. */
    ghost predicate HasPart(p: Bitvec?, part: set<nat>)
      reads this, Repr
      decreases Repr, 0
    {
      if p == null then part == {}
      else p in Repr && p.Repr < Repr && this !in p.Repr && p.Valid() && p.iSize == iDivisor && p.Bits == part
    }

    /** sqlite3BitvecCreate() */
    constructor (iSize: nat)
      requires iSize <= U32_MAX
      ensures Valid() && fresh(Repr) && this.iSize == iSize && Bits == {} && iDivisor == 0 && nSet == 0
    {
      this.iSize, nSet, iDivisor := iSize, 0, 0;
      aBitmap, aHash, apSub := seq(NELEM, _ => 0), seq(NINT, _ => 0), seq(NPTR, _ => null);
      Repr, Bits, Parts := {this}, {}, [];
      new;
      BitmapEmpty();
      TableEmpty();
    }

    /** sqlite3BitvecTestNotNull(). Looks at no more nodes than the depth of the range. */
    method Test(i: nat) returns (r: bool, ghost path: nat)
      requires Valid() && i <= U32_MAX
      ensures r <==> i in Bits
      ensures path <= Depth(iSize) <= 5
    {
      FiveNodes(iSize);
      var k: nat := if i == 0 then U32_MAX else i - 1;
      path := 1;
      if k >= iSize { return false, path; }
      var p: Bitvec := this;
      hide IsBitmap, IsTable, Divisor, Gather, Occupied, Depth, Valid;
      while p.iDivisor != 0
        invariant p.Valid() && k < p.iSize && (i in Bits <==> k + 1 in p.Bits)
        invariant path + Depth(p.iSize) <= Depth(iSize) + 1
        decreases p.iSize
      {
        var bin, rest := k / p.iDivisor, k % p.iDivisor;
        PartOf(p, k + 1);
        PartFor(p, p.apSub[bin], k, bin, rest);
        if p.apSub[bin] == null {
          return false, path;
        }
        p, k, path := p.apSub[bin], rest, path + 1;
      }
      AtLeaf(p);
      if p.iSize <= NBIT {
        r := p.BitmapTest(k);
      } else {
        r := p.HashTest(k + 1);
      }
    }

    /** Going on in the part decides the same. */
    static lemma PartFor(p: Bitvec, q: Bitvec?, k: nat, bin: nat, rest: nat)
      requires p.Valid() && p.iDivisor != 0 && k < p.iSize && bin == k / p.iDivisor && rest == k % p.iDivisor
      requires bin < |p.apSub| && q == p.apSub[bin]
      ensures q == null ==> k + 1 !in p.Bits
      ensures q != null ==> q.Valid() && rest < q.iSize < p.iSize && Depth(p.iSize) == 1 + Depth(q.iSize)
      ensures q != null ==> (k + 1 in p.Bits <==> rest + 1 in q.Bits)
    {
      hide IsBitmap, IsTable, Gather, Occupied;
      PartOf(p, k + 1);
      assert p.HasPart(q, p.Parts[bin]);
    }

    static lemma AtLeaf(p: Bitvec)
      requires p.Valid()
      ensures 1 <= Depth(p.iSize)
    {
    }

    static lemma PartOf(p: Bitvec, x: nat)
      requires p.Valid() && p.iDivisor != 0 && 1 <= x <= p.iSize
      ensures p.iSize > NBIT && p.iDivisor == Divisor(p.iSize) && Bin(x, p.iDivisor) < NPTR == |p.Parts| == |p.apSub|
      ensures x in p.Bits <==> Rest(x, p.iDivisor) in p.Parts[Bin(x, p.iDivisor)]
    {
      BinInRange(x, p.iDivisor);
    }

    method BitmapTest(k: nat) returns (r: bool)
      requires Valid() && k < iSize <= NBIT
      ensures r <==> k + 1 in Bits
    {
      r := TestBit(aBitmap, k);
    }

    method HashTest(v: nat) returns (r: bool)
      requires Valid() && iSize > NBIT && iDivisor == 0 && 0 < v
      ensures r <==> v in Bits
    {
      hide IsBitmap, Gather, Divisor;
      var h;
      ghost var d;
      h, d := Probe(aHash, v);
      ProbeDecides(aHash, Bits, v, d);
      r := aHash[h] == v;
    }

    // What a call that may allocate promises. `mem` answers the requests for memory in turn.

    /** sqlite3BitvecSet(). When memory runs out, bits may be lost, but none appears that was not asked for. */
    method Set(i: nat, mem: nat -> bool, used: nat) returns (ok: bool, used1: nat)
      requires Valid() && 1 <= i <= iSize
      modifies Repr
      ensures Valid() && fresh(Repr - old(Repr)) && iSize == old(iSize) && used <= used1
      ensures ok <==> Granted(mem, used, used1)
      ensures if ok then Bits == old(Bits) + {i} else Bits <= old(Bits) + {i}
      ensures iDivisor == old(iDivisor) || iDivisor > 0
      decreases iSize, if iDivisor == 0 then 1 else 0, 3
    {
      if iSize > NBIT && iDivisor != 0 {
        ok, used1 := SetPart(i, mem, used);
      } else if iSize <= NBIT {
        ghost var m := aBitmap;
        BitmapSet(aBitmap, Bits, i - 1);
        aBitmap := BitSet(aBitmap, i - 1);
        Bits := Bits + {i};
        ok, used1 := true, used;
      } else {
        ok, used1 := SetHash(i, mem, used);
      }
    }

    /** The bit belongs to a part, which may have to be created. */
    method SetPart(i: nat, mem: nat -> bool, used: nat) returns (ok: bool, used1: nat)
      requires Valid() && 1 <= i <= iSize && iSize > NBIT && iDivisor != 0
      modifies Repr
      ensures Valid() && fresh(Repr - old(Repr)) && iSize == old(iSize) && used <= used1
      ensures ok <==> Granted(mem, used, used1)
      ensures if ok then Bits == old(Bits) + {i} else Bits <= old(Bits) + {i}
      ensures iDivisor == old(iDivisor)
      decreases iSize, 0, 2
    {
      var bin, rest := (i - 1) / iDivisor, (i - 1) % iDivisor + 1;
      PartOf(this, i);
      GatherOne(iSize, iDivisor, Parts, i);
      assert iDivisor < iSize;
      hide IsBitmap, IsTable, Divisor, Gather, Occupied, HasPart;
      used1 := used;
      if apSub[bin] == null {
        used1 := used1 + 1;
        if !mem(used) { return false, used1; }
        MakePart(bin);
      }
      ok, used1 := SetInPart(i, bin, rest, mem, used1);
    }

    method MakePart(bin: nat)
      requires Valid() && iSize > NBIT && iDivisor != 0 && bin < NPTR && apSub[bin] == null
      modifies this`apSub, this`Repr
      ensures Valid() && fresh(Repr - old(Repr)) && |apSub| == NPTR && apSub[bin] != null
    {
      hide IsBitmap, IsTable, Gather, Occupied;
      assert HasPart(apSub[bin], Parts[bin]);
      var sub := new Bitvec(iDivisor);
      apSub := apSub[bin := sub];
      Repr := Repr + sub.Repr;
    }

    method SetInPart(i: nat, bin: nat, rest: nat, mem: nat -> bool, used: nat) returns (ok: bool, used1: nat)
      requires Valid() && 1 <= i <= iSize && iSize > NBIT && iDivisor != 0
      requires bin == Bin(i, iDivisor) < NPTR && rest == Rest(i, iDivisor) && apSub[bin] != null
      modifies Repr
      ensures Valid() && fresh(Repr - old(Repr)) && iSize == old(iSize) && used <= used1
      ensures ok <==> Granted(mem, used, used1)
      ensures if ok then Bits == old(Bits) + {i} else Bits <= old(Bits) + {i}
      ensures iDivisor == old(iDivisor)
      decreases iSize, 0, 1
    {
      hide IsBitmap, IsTable, Gather, Occupied, Bin, Rest, Divisor;
      ghost var d := iDivisor;
      GatherOne(iSize, d, Parts, i);
      var p := apSub[bin];
      ghost var part := Parts[bin];
      assert HasPart(p, part);
      ok, used1 := p.Set(rest, mem, used);
      PartChanged(bin);
      ghost var some := Parts[bin := part + {rest}];
      GatherLess(iSize, d, some, bin, p.Bits);
      assert some[bin := p.Bits] == Parts[bin := p.Bits];
      Repr := Repr + p.Repr;
      Parts := Parts[bin := p.Bits];
      Bits := Gather(iSize, d, Parts);
      GatherRange(iSize, d, Parts);
    }

    /** The other parts do not notice a change inside one part. */
    twostate lemma PartChanged(bin: nat)
      requires old(Valid()) && old(iSize) > NBIT && old(iDivisor) != 0 && bin < NPTR && old(apSub)[bin] != null
      requires unchanged(this) && forall o: object :: o in old(Repr) && o !in old(apSub[bin].Repr) ==> unchanged(o)
      requires fresh(apSub[bin].Repr - old(apSub[bin].Repr))
      ensures forall j: nat :: j < NPTR && j != bin && apSub[j] != null ==>
                apSub[j].Repr !! apSub[bin].Repr && HasPart(apSub[j], Parts[j]) && apSub[j].Repr == old(apSub[j].Repr)
    {
      hide IsBitmap, IsTable, Gather, Occupied;
      forall j: nat | j < NPTR && j != bin && apSub[j] != null
        ensures apSub[j].Repr !! apSub[bin].Repr && HasPart(apSub[j], Parts[j]) && apSub[j].Repr == old(apSub[j].Repr)
      {
        var q := apSub[j];
        assert old(HasPart(q, Parts[j]));
      }
    }

    /** In the hash table: a free home takes the value while a slot stays free, and the first free slot after it
        takes the value while the table is at most half full. Otherwise the table is divided into parts. */
    method SetHash(i: nat, mem: nat -> bool, used: nat) returns (ok: bool, used1: nat)
      requires Valid() && 1 <= i <= iSize && iSize > NBIT && iDivisor == 0
      modifies Repr
      ensures Valid() && fresh(Repr - old(Repr)) && iSize == old(iSize) && used <= used1
      ensures ok <==> Granted(mem, used, used1)
      ensures if ok then Bits == old(Bits) + {i} else Bits <= old(Bits) + {i}
      decreases iSize, 1, 2
    {
      assert |aHash| == NINT;
      hide IsBitmap, IsTable, Occupied, Divisor, Gather, Packed;
      var full := if aHash[Home(i)] == 0 then nSet >= NINT - 1 else nSet >= MXHASH;
      var h;
      ghost var d;
      h, d := Probe(aHash, i);
      ProbeDecides(aHash, Bits, i, d);
      if aHash[h] == i {
        assert Bits + {i} == Bits;
        return true, used;
      }
      if full {
        ok, used1 := Divide(i, mem, used);
      } else {
        ok, used1 := true, used;
        TableInsert(aHash, Bits, i, d);
        nSet := nSet + 1;
        aHash := aHash[h := i];
        Bits := Bits + {i};
      }
    }

    /** Turn a hash table into parts and insert the new value and then the values of the table again. */
    method Divide(i: nat, mem: nat -> bool, used: nat) returns (ok: bool, used1: nat)
      requires Valid() && 1 <= i <= iSize && iSize > NBIT && iDivisor == 0
      modifies Repr
      ensures Valid() && fresh(Repr - old(Repr)) && iSize == old(iSize) && used <= used1
      ensures ok <==> Granted(mem, used, used1)
      ensures if ok then Bits == old(Bits) + {i} else Bits <= old(Bits) + {i}
      decreases iSize, 1, 1
    {
      if !mem(used) {
        return false, used + 1;
      }
      var aiValues := aHash;
      ghost var bits := Bits;
      assert Granted(mem, used, used + 1);
      hide IsBitmap, IsTable, Occupied, Divisor, Gather, Valid, Granted;
      TableOf();
      StartParts();
      ok, used1 := Set(i, mem, used + 1);
      GrantedTogether(mem, used, used + 1, used1);
      ok, used1 := InsertAll(aiValues, bits, i, mem, used, ok, used1);
    }

    lemma TableOf()
      requires Valid() && iSize > NBIT && iDivisor == 0
      ensures IsTable(aHash, Bits) && (forall x :: x in Bits ==> 1 <= x <= iSize)
    {
    }

    method InsertAll(aiValues: seq<nat>, ghost bits: set<nat>, ghost i: nat, mem: nat -> bool, ghost used: nat,
                     ok0: bool, used0: nat)
      returns (ok: bool, used1: nat)
      requires Valid() && iSize > NBIT && iDivisor > 0 && used < used0 && IsTable(aiValues, bits)
      requires forall x :: x in bits ==> 1 <= x <= iSize
      requires ok0 <==> Granted(mem, used, used0)
      requires if ok0 then Bits == {i} else Bits <= {i}
      modifies Repr
      ensures Valid() && fresh(Repr - old(Repr)) && iSize == old(iSize) && used < used1
      ensures ok <==> Granted(mem, used, used1)
      ensures if ok then Bits == bits + {i} else Bits <= bits + {i}
      decreases iSize, 1, 0
    {
      TableValues(aiValues, bits);
      assert Values(aiValues, 0) == {};
      hide IsTable, Values, Valid, Granted;
      ok, used1 := ok0, used0;
      for j := 0 to NINT
        invariant Valid() && fresh(Repr - old(Repr)) && iSize == old(iSize) && iDivisor > 0 && used < used1
        invariant ok <==> Granted(mem, used, used1)
        invariant if ok then Bits == Values(aiValues, j) + {i} else Bits <= bits + {i}
      {
        ValuesGrow(aiValues, j);
        if aiValues[j] != 0 {
          TableValue(aiValues, bits, j);
          ValuesIn(aiValues, bits, j);
          var rc;
          ghost var used2 := used1;
          rc, used1 := Set(aiValues[j], mem, used1);
          GrantedTogether(mem, used, used2, used1);
          ok := ok && rc;
        }
      }
    }

    /** An empty set of parts over the same range. */
    method StartParts()
      requires Valid() && iSize > NBIT && iDivisor == 0
      modifies this
      ensures Valid() && iSize == old(iSize) && iDivisor > 0 && Repr == old(Repr) && Bits == {}
    {
      iDivisor := Divisor(iSize);
      apSub := seq(NPTR, _ => null);
      Parts := seq(NPTR, _ => {});
      Bits := {};
      GatherEmpty(iSize, iDivisor, NPTR);
    }

    /** sqlite3BitvecClear() */
    method Clear(i: nat)
      requires Valid() && 1 <= i <= iSize
      modifies Repr
      ensures Valid() && Repr == old(Repr) && iSize == old(iSize) && Bits == old(Bits) - {i}
      decreases iSize
    {
      if iDivisor != 0 {
        var bin, rest := (i - 1) / iDivisor, (i - 1) % iDivisor + 1;
        PartOf(this, i);
        if apSub[bin] == null {
          assert HasPart(apSub[bin], Parts[bin]);
          return;
        }
        ClearPart(i, bin, rest);
      } else if iSize <= NBIT {
        BitmapClear(aBitmap, Bits, i - 1);
        aBitmap := BitCleared(aBitmap, i - 1);
        Bits := Bits - {i};
      } else {
        ClearHash(i);
      }
    }

    method ClearPart(i: nat, bin: nat, rest: nat)
      requires Valid() && 1 <= i <= iSize && iSize > NBIT && iDivisor != 0
      requires bin == Bin(i, iDivisor) < NPTR && rest == Rest(i, iDivisor) && apSub[bin] != null
      modifies Repr
      ensures Valid() && Repr == old(Repr) && iSize == old(iSize) && Bits == old(Bits) - {i}
      decreases iSize, 0
    {
      hide IsBitmap, IsTable, Gather, Occupied, Bin, Rest;
      ghost var d := iDivisor;
      GatherOne(iSize, d, Parts, i);
      var p := apSub[bin];
      assert HasPart(p, Parts[bin]);
      p.Clear(rest);
      PartChanged(bin);
      Parts := Parts[bin := p.Bits];
      Bits := Gather(iSize, d, Parts);
      GatherRange(iSize, d, Parts);
    }

    ghost predicate Hashed()
      reads this
    {
      IsTable(aHash, Bits) && nSet == |Occupied(aHash, NINT)| < NINT
    }

    /** Put a value into the first free slot of its search. */
    method Reinsert(v: nat)
      requires Hashed() && 1 <= v && v !in Bits && nSet + 1 < NINT
      modifies this`nSet, this`aHash, this`Bits
      ensures Hashed() && Bits == old(Bits) + {v} && nSet == old(nSet) + 1
    {
      nSet := nSet + 1;
      var h;
      ghost var d;
      h, d := FirstFree(aHash, v);
      TableInsert(aHash, Bits, v, d);
      hide IsTable, Occupied;
      aHash := aHash[h := v];
      Bits := Bits + {v};
    }

    /** Build the table again, without the value. */
    method ClearHash(i: nat)
      requires Valid() && 1 <= i <= iSize && iSize > NBIT && iDivisor == 0
      modifies this`nSet, this`aHash, this`Bits
      ensures Valid() && Bits == old(Bits) - {i}
    {
      hide IsTable, IsBitmap, Occupied, Gather, Divisor;
      Rebuild(aHash, i);
    }

    method Rebuild(aiValues: seq<nat>, i: nat)
      requires Hashed() && aiValues == aHash
      modifies this`nSet, this`aHash, this`Bits
      ensures Hashed() && Bits == old(Bits) - {i}
    {
      ghost var bits := Bits;
      aHash := seq(NINT, _ => 0);
      nSet := 0;
      Bits := {};
      TableEmpty();
      TableValues(aiValues, bits);
      assert Values(aiValues, 0) == {};
      hide IsTable, Occupied, Values;
      for j := 0 to NINT
        invariant Hashed() && nSet <= |Occupied(aiValues, j)| && Bits == Values(aiValues, j) - {i}
      {
        RebuildStep(aiValues, bits, i, j);
        if aiValues[j] != 0 && aiValues[j] != i {
          Reinsert(aiValues[j]);
        }
      }
    }
  }

  datatype Op = SetBit(i: nat) | ClearBit(i: nat)

  /** A mathematical set after a run of operations. */
  function After(bits: set<nat>, ops: seq<Op>): (r: set<nat>)
    decreases |ops|
  {
    if ops == [] then bits
    else
      var before := After(bits, ops[..|ops| - 1]);
      match ops[|ops| - 1]
      case SetBit(i) => before + {i}
      case ClearBit(i) => before - {i}
  }

  /** Through all three forms and the changes between them, a run of operations is the run on a set; when memory
      runs out, no bit appears that is not in that set. */
  method Run(b: Bitvec, ops: seq<Op>, mem: nat -> bool) returns (ok: bool, ghost used: nat)
    requires b.Valid() && forall op :: op in ops ==> 1 <= op.i <= b.iSize
    modifies b.Repr
    ensures b.Valid() && b.iSize == old(b.iSize)
    ensures b.Bits <= After(old(b.Bits), ops) && (ok ==> b.Bits == After(old(b.Bits), ops))
    ensures ok <==> Granted(mem, 0, used)
  {
    hide Granted, Bitvec.Valid;
    assert Granted(mem, 0, 0) by { GrantedNone(mem); }
    ok := true;
    var n := 0;
    ghost var bits := b.Bits;
    for j := 0 to |ops|
      invariant b.Valid() && fresh(b.Repr - old(b.Repr)) && b.iSize == old(b.iSize)
      invariant b.Bits <= After(bits, ops[..j]) && (ok ==> b.Bits == After(bits, ops[..j]))
      invariant ok <==> Granted(mem, 0, n)
    {
      assert ops[..j + 1][..j] == ops[..j];
      match ops[j] {
        case SetBit(i) =>
          var rc, n1 := b.Set(i, mem, n);
          GrantedTogether(mem, 0, n, n1);
          ok, n := ok && rc, n1;
        case ClearBit(i) =>
          b.Clear(i);
      }
    }
    assert ops[..|ops|] == ops;
    used := n;
  }

  lemma GrantedNone(mem: nat -> bool)
    ensures Granted(mem, 0, 0)
  {
  }
}
