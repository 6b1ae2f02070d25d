/** A hash table of strings that ignores case: one doubly linked list of all entries, in which every bucket is a
    run of neighbours. */
module HashTable {
  // -------------------- keys --------------------

  type Byte = b: int | 0 < b < 256 witness 1

  type Key = seq<Byte>

  /** The case table maps the letters A to Z. */
  function Lower(c: Byte): Byte {
    if 65 <= c <= 90 then c + 32 else c
  }

  function Fold(z: Key): (f: Key)
    ensures |f| == |z|
  {
    if z == [] then [] else Fold(z[..|z| - 1]) + [Lower(z[|z| - 1])]
  }

  /** Two bytes are the same letter in upper and lower case, or the same byte. */
  predicate SameLetter(c: Byte, d: Byte) {
    c == d || (65 <= c <= 90 && d == c + 32) || (65 <= d <= 90 && c == d + 32)
  }

  /** Keys are equal ignoring case when they have the same letters in the same places. */
  lemma {:induction false} FoldMeans(a: Key, b: Key)
    ensures Fold(a) == Fold(b) <==> |a| == |b| && forall i :: 0 <= i < |a| ==> SameLetter(a[i], b[i])
  {
    if |a| == |b| && a != [] {
      var n := |a| - 1;
      FoldMeans(a[..n], b[..n]);
      assert Fold(a)[..n] == Fold(a[..n]) && Fold(b)[..n] == Fold(b[..n]);
      assert Fold(a)[n] == Lower(a[n]) && Fold(b)[n] == Lower(b[n]);
      assert SameLetter(a[n], b[n]) <==> Lower(a[n]) == Lower(b[n]);
      hide Fold, Lower, SameLetter;
      assert (forall i :: 0 <= i < |a| ==> SameLetter(a[i], b[i])) <==>
             (forall i :: 0 <= i < n ==> SameLetter(a[..n][i], b[..n][i])) && SameLetter(a[n], b[n]);
      assert Fold(a) == Fold(a)[..n] + [Fold(a)[n]] && Fold(b) == Fold(b)[..n] + [Fold(b)[n]];
    }
  }

  /** The bits 0xdf of a byte. */
  function WithoutCaseBit(c: Byte): int {
    c - c / 32 % 2 * 32
  }

  const KNUTH := 0x9e3779b1
  const TWO32 := 0x1_0000_0000

  function Mix(h: nat, c: Byte): (r: nat)
    ensures r < TWO32
  {
    (h + WithoutCaseBit(c)) % TWO32 * KNUTH % TWO32
  }

  function HashOf(z: Key): (h: nat)
    ensures h < TWO32
  {
    if z == [] then 0 else Mix(HashOf(z[..|z| - 1]), z[|z| - 1])
  }

  lemma CaseBit(c: Byte)
    ensures WithoutCaseBit(Lower(c)) == WithoutCaseBit(c)
  {
  }

  /** The hash does not see the case of letters. */
  lemma {:induction false} HashFolds(z: Key)
    ensures HashOf(Fold(z)) == HashOf(z)
  {
    if z != [] {
      HashFolds(z[..|z| - 1]);
      CaseBit(z[|z| - 1]);
      assert Fold(z)[..|z| - 1] == Fold(z[..|z| - 1]);
      hide Mix, WithoutCaseBit, Lower;
      MixFolds(HashOf(z[..|z| - 1]), z[|z| - 1]);
    }
  }

  lemma MixFolds(h: nat, c: Byte)
    ensures Mix(h, Lower(c)) == Mix(h, c)
  {
    CaseBit(c);
    hide WithoutCaseBit, Lower;
  }

  lemma {:induction false} EqualKeysHashAlike(a: Key, b: Key)
    requires Fold(a) == Fold(b)
    ensures HashOf(a) == HashOf(b)
  {
    HashFolds(a);
    HashFolds(b);
  }

  /** strHash() */
  method StrHash(z: Key) returns (h: nat)
    ensures h == HashOf(z)
  {
    h := 0;
    var i := 0;
    while i < |z|
      invariant i <= |z| && h == HashOf(z[..i])
    {
      h := (h + WithoutCaseBit(z[i])) % TWO32;
      h := h * KNUTH % TWO32;
      assert z[..i + 1][..i] == z[..i];
      i := i + 1;
    }
    assert z[..|z|] == z;
  }

  lemma {:induction false} FoldAt(z: Key, i: nat)
    requires i < |z|
    ensures Fold(z)[i] == Lower(z[i])
  {
    if i < |z| - 1 {
      FoldAt(z[..|z| - 1], i);
    }
  }

  /** sqlite3StrICmp() gives zero. */
  method EqualIgnoringCase(a: Key, b: Key) returns (r: bool)
    ensures r <==> Fold(a) == Fold(b)
  {
    var i := 0;
    while i < |a| && i < |b|
      invariant i <= |a| && i <= |b|
      invariant forall j: nat :: j < i ==> Fold(a)[j] == Fold(b)[j]
    {
      FoldAt(a, i);
      FoldAt(b, i);
      if a[i] != b[i] && Lower(a[i]) != Lower(b[i]) {
        return false;
      }
      i := i + 1;
    }
    r := i == |a| && i == |b|;
    assert r ==> Fold(a) == Fold(b);
  }

  // -------------------- the list and its buckets --------------------

  class HashElem {
    var next: HashElem?
    var prev: HashElem?
    var data: nat
    var pKey: Key
    const h: nat

    constructor (pKey: Key, h: nat, data: nat)
      ensures this.pKey == pKey && this.h == h && this.data == data
    {
      this.pKey, this.h, this.data := pKey, h, data;
      next, prev := null, null;
    }
  }

  /** How many entries a bucket has, and the first of them. */
  datatype Bucket = Bucket(count: nat, chain: HashElem?)

  function ElemAt(es: seq<HashElem>, i: int): HashElem? {
    if 0 <= i < |es| then es[i] else null
  }

  ghost predicate Distinct(es: seq<HashElem>) {
    forall i: nat, j: nat :: i < j < |es| ==> es[i] != es[j]
  }

  /** The entries, in order, form a well-formed doubly linked list. */
  ghost predicate Linked(first: HashElem?, es: seq<HashElem>)
    reads es`next, es`prev
  {
    first == ElemAt(es, 0) &&
    forall i: nat :: i < |es| ==> es[i].next == ElemAt(es, i + 1) && es[i].prev == ElemAt(es, i - 1)
  }

  /** Bucket `k` is the run of `count` neighbours that starts at `starts[k]`: exactly the entries whose hash leads
      to it. */
  ghost predicate InBucket(b: Bucket, start: nat, k: nat, n: nat, es: seq<HashElem>)
    requires n > 0
  {
    start + b.count <= |es| && (b.count > 0 ==> b.chain == es[start]) &&
    forall i: nat :: i < |es| ==> (start <= i < start + b.count <==> es[i].h % n == k)
  }

  ghost predicate Bucketed(ht: seq<Bucket>, starts: seq<nat>, es: seq<HashElem>) {
    |starts| == |ht| && forall k: nat :: k < |ht| ==> InBucket(ht[k], starts[k], k, |ht|, es)
  }

  // -------------------- inserting into and removing from the runs --------------------

  function Inserted(es: seq<HashElem>, pos: nat, e: HashElem): (r: seq<HashElem>)
    requires pos <= |es|
    ensures |r| == |es| + 1
  {
    es[..pos] + [e] + es[pos..]
  }

  function Removed(es: seq<HashElem>, pos: nat): (r: seq<HashElem>)
    requires pos < |es|
    ensures |r| == |es| - 1
  {
    es[..pos] + es[pos + 1..]
  }

  function StartAfterInsert(start: nat, pos: nat): nat { if start >= pos then start + 1 else start }

  function StartAfterRemove(start: nat, pos: nat): nat { if start > pos then start - 1 else start }

  /** A new entry outside the run of a bucket. */
  lemma RunMoves(b: Bucket, start: nat, k: nat, n: nat, es: seq<HashElem>, pos: nat, e: HashElem)
    requires n > 0 && InBucket(b, start, k, n, es) && pos <= |es| && e.h % n != k
    requires b.count > 0 ==> pos <= start || start + b.count <= pos
    ensures InBucket(b, StartAfterInsert(start, pos), k, n, Inserted(es, pos, e))
  {
  }

  /** The runs of two buckets do not meet. */
  lemma RunsApart(b: Bucket, start: nat, c: Bucket, start1: nat, j: nat, k: nat, n: nat, es: seq<HashElem>)
    requires n > 0 && j != k && InBucket(b, start, j, n, es) && InBucket(c, start1, k, n, es)
    ensures c.count > 0 && b.count > 0 ==> start1 < start || start + b.count <= start1
  {
  }

  /** A new entry at the head of the run of its bucket. */
  lemma RunGrows(b: Bucket, start: nat, k: nat, n: nat, es: seq<HashElem>, pos: nat, e: HashElem)
    requires n > 0 && InBucket(b, start, k, n, es) && pos <= |es| && e.h % n == k
    requires b.count > 0 ==> pos == start
    ensures InBucket(Bucket(b.count + 1, e), pos, k, n, Inserted(es, pos, e))
  {
  }

  /** An entry of another bucket goes away. */
  lemma RunFollows(b: Bucket, start: nat, k: nat, n: nat, es: seq<HashElem>, pos: nat)
    requires n > 0 && InBucket(b, start, k, n, es) && pos < |es| && es[pos].h % n != k
    ensures InBucket(b, StartAfterRemove(start, pos), k, n, Removed(es, pos))
  {
  }

  /** An entry of the bucket goes away; its first entry may be the next one then. */
  lemma RunShrinks(b: Bucket, start: nat, k: nat, n: nat, es: seq<HashElem>, pos: nat)
    requires n > 0 && InBucket(b, start, k, n, es) && pos < |es| && es[pos].h % n == k
    ensures b.count > 0 && (b.chain == es[pos] ==> pos == start || es[pos] == es[start])
    ensures pos != start ==> InBucket(Bucket(b.count - 1, b.chain), start, k, n, Removed(es, pos))
    ensures pos == start ==> InBucket(Bucket(b.count - 1, ElemAt(es, pos + 1)), start, k, n, Removed(es, pos))
  {
  }

  /** A list whose links go round a new entry has it in its place. */
  lemma LinksAround(first: HashElem?, es: seq<HashElem>, pos: nat, e: HashElem)
    requires pos <= |es| && first == (if pos == 0 then e else ElemAt(es, 0))
    requires e.next == ElemAt(es, pos) && e.prev == ElemAt(es, pos - 1)
    requires forall i: nat :: i < |es| ==> es[i].next == (if i + 1 == pos then e else ElemAt(es, i + 1))
    requires forall i: nat :: i < |es| ==> es[i].prev == (if i == pos then e else ElemAt(es, i - 1))
    ensures Linked(first, Inserted(es, pos, e))
  {
    var r := Inserted(es, pos, e);
    forall i: nat | i < |r|
      ensures r[i].next == ElemAt(r, i + 1) && r[i].prev == ElemAt(r, i - 1)
    {
      if i < pos {
        assert r[i] == es[i];
      } else if i > pos {
        assert r[i] == es[i - 1];
      }
    }
  }

  /** A list whose links pass over an entry is the list without it. */
  lemma LinksPast(first: HashElem?, es: seq<HashElem>, pos: nat)
    requires pos < |es| && Distinct(es) && first == (if pos == 0 then ElemAt(es, 1) else ElemAt(es, 0))
    requires forall i: nat :: i < |es| && i != pos ==>
               es[i].next == (if i + 1 == pos then ElemAt(es, pos + 1) else ElemAt(es, i + 1))
    requires forall i: nat :: i < |es| && i != pos ==>
               es[i].prev == (if i == pos + 1 then ElemAt(es, pos - 1) else ElemAt(es, i - 1))
    ensures Linked(first, Removed(es, pos)) && Distinct(Removed(es, pos))
  {
    var r := Removed(es, pos);
    forall i: nat | i < |r|
      ensures r[i].next == ElemAt(r, i + 1) && r[i].prev == ElemAt(r, i - 1)
    {
      if i < pos {
        assert r[i] == es[i];
      } else {
        assert r[i] == es[i + 1];
      }
    }
  }

  lemma InsertedMembers(es: seq<HashElem>, pos: nat, x: HashElem)
    requires pos <= |es|
    ensures forall e :: e in Inserted(es, pos, x) <==> e in es || e == x
  {
    assert es == es[..pos] + es[pos..];
  }

  /** The element is one of the first `n`. */
  ghost predicate InFirst(es: seq<HashElem>, n: nat, e: HashElem) {
    exists j: nat :: j < n && j < |es| && es[j] == e
  }

  lemma FirstIn(es: seq<HashElem>, n: nat)
    requires n < |es| && Distinct(es)
    ensures forall e :: InFirst(es, n, e) ==> e in es
    ensures forall e :: InFirst(es, n + 1, e) <==> InFirst(es, n, e) || e == es[n]
    ensures forall j: nat :: n <= j < |es| ==> !InFirst(es, n, es[j])
  {
    forall e
      ensures InFirst(es, n + 1, e) <==> InFirst(es, n, e) || e == es[n]
    {
      if InFirst(es, n, e) {
        var j: nat :| j < n && es[j] == e;
      }
    }
  }

  lemma RemovedMembers(es: seq<HashElem>, pos: nat)
    requires pos < |es|
    ensures forall e :: e in Removed(es, pos) ==> e in es
  {
  }

  lemma StillDistinct(es: seq<HashElem>, pos: nat, e: HashElem)
    requires pos <= |es| && Distinct(es) && e !in es
    ensures Distinct(Inserted(es, pos, e))
  {
  }

  // -------------------- the map --------------------

  datatype Entry = Entry(pKey: Key, data: nat)

  /** What an entry of the list says about the map. */
  ghost predicate Says(e: HashElem, m: map<Key, Entry>)
    reads e`pKey, e`data
  {
    e.h == HashOf(e.pKey) && e.data != 0 && Fold(e.pKey) in m && m[Fold(e.pKey)] == Entry(e.pKey, e.data)
  }

  /** The entries hold the map: one entry for each key, up to case. */
  ghost predicate Holds(es: seq<HashElem>, m: map<Key, Entry>)
    reads es`pKey, es`data
  {
    (forall e :: e in es ==> Says(e, m)) &&
    (forall d, e :: d in es && e in es && Fold(d.pKey) == Fold(e.pKey) ==> d == e) &&
    (forall f :: f in m ==> exists e :: e in es && Fold(e.pKey) == f)
  }

  lemma HoldsLess(es: seq<HashElem>, m: map<Key, Entry>, pos: nat)
    requires Distinct(es) && Holds(es, m) && pos < |es|
    ensures Holds(Removed(es, pos), m - {Fold(es[pos].pKey)})
  {
    hide Fold, HashOf;
    var r := Removed(es, pos);
    assert forall e :: e in es <==> e in r || e == es[pos] by { assert es == es[..pos] + [es[pos]] + es[pos + 1..]; }
    assert es[pos] !in r;
  }

  lemma HoldsNothing(es: seq<HashElem>, m: map<Key, Entry>)
    requires Holds(es, m) && es == []
    ensures m == map[]
  {
    hide Fold, HashOf;
    assert forall f :: f !in m;
  }

  lemma HoldsMore(es: seq<HashElem>, m: map<Key, Entry>, r: seq<HashElem>, x: HashElem)
    requires Holds(es, m) && Fold(x.pKey) !in m && x.h == HashOf(x.pKey) && x.data != 0
    requires forall e :: e in r <==> e in es || e == x
    ensures Holds(r, m[Fold(x.pKey) := Entry(x.pKey, x.data)])
  {
    hide Fold, HashOf;
    var f := Fold(x.pKey);
    var m1 := m[f := Entry(x.pKey, x.data)];
    forall g | g in m1
      ensures exists e :: e in r && Fold(e.pKey) == g
    {
      if g == f {
        assert x in r;
      } else {
        var e :| e in es && Fold(e.pKey) == g;
        assert e in r;
      }
    }
  }

  /** A key that no entry of its bucket has is not in the map. */
  lemma NotHeld(es: seq<HashElem>, m: map<Key, Entry>, key: Key, start: nat, count: nat)
    requires Holds(es, m) && start + count <= |es|
    requires forall i: nat :: i < |es| && es[i].h == HashOf(key) ==> start <= i < start + count
    requires forall i: nat :: start <= i < start + count ==> es[i].h != HashOf(key) || Fold(es[i].pKey) != Fold(key)
    ensures Fold(key) !in m
  {
    hide HashOf, Fold;
    if Fold(key) in m {
      var e :| e in es && Fold(e.pKey) == Fold(key);
      EqualKeysHashAlike(e.pKey, key);
    }
  }

  class Hash {
    var htsize: nat
    var count: nat
    var first: HashElem?
    var ht: seq<Bucket>
    // The list, its nodes, where the runs start, and the map that it holds.
    ghost var Elems: seq<HashElem>
    ghost var Nodes: set<HashElem>
    ghost var Starts: seq<nat>
    ghost var Map: map<Key, Entry>

    ghost predicate Shape()
      reads this, Elems
    {
      Linked(first, Elems) && Distinct(Elems) && (forall e :: e in Elems ==> e in Nodes) &&
      htsize == |ht| && Bucketed(ht, Starts, Elems)
    }

    ghost predicate Valid()
      reads this, Elems
    {
      Shape() && count == |Elems| && Holds(Elems, Map)
    }

    /** sqlite3HashInit() */
    constructor ()
      ensures Valid() && Map == map[] && Nodes == {}
    {
      first, count, htsize, ht := null, 0, 0, [];
      Elems, Nodes, Starts, Map := [], {}, [], map[];
    }

    /** Link a new element into the list before `pHead`, or at the front. */
    method LinkIn(pNew: HashElem, pHead: HashElem?, ghost pos: nat)
      requires Linked(first, Elems) && Distinct(Elems) && pNew !in Elems && pos <= |Elems|
      requires pNew in Nodes && forall e :: e in Elems ==> e in Nodes
      requires if pHead != null then pos < |Elems| && pHead == Elems[pos] else pos == 0
      modifies this`first, Nodes`next, Nodes`prev
      ensures Linked(first, Inserted(Elems, pos, pNew)) && Distinct(Inserted(Elems, pos, pNew))
      ensures forall e :: e in Nodes && e !in Elems && e != pNew ==> e.next == old(e.next)
    {
      ghost var es := Elems;
      StillDistinct(es, pos, pNew);
      if pHead != null {
        pNew.next := pHead;
        pNew.prev := pHead.prev;
        if pHead.prev != null { pHead.prev.next := pNew; } else { first := pNew; }
        pHead.prev := pNew;
      } else {
        pNew.next := first;
        if first != null { first.prev := pNew; }
        pNew.prev := null;
        first := pNew;
      }
      LinksAround(first, es, pos, pNew);
    }

    /** Count a new element in its bucket and make it the first one there. */
    method BucketIn(pNew: HashElem) returns (pHead: HashElem?, ghost pos: nat)
      requires htsize == |ht| && Bucketed(ht, Starts, Elems)
      modifies this`ht, this`Starts
      ensures htsize == |ht| && pos <= |Elems| && Bucketed(ht, Starts, Inserted(Elems, pos, pNew))
      ensures if pHead != null then pos < |Elems| && pHead == Elems[pos] else pos == 0
    {
      pHead, pos := null, 0;
      if htsize > 0 {
        ghost var starts, es := Starts, Elems;
        var n := htsize;
        var k := pNew.h % n;
        assert InBucket(ht[k], starts[k], k, n, es);
        if ht[k].count > 0 {
          pHead := ht[k].chain;
          pos := starts[k];
        }
        forall j: nat | j < n && j != k
          ensures InBucket(ht[j], StartAfterInsert(starts[j], pos), j, n, Inserted(es, pos, pNew))
        {
          assert InBucket(ht[j], starts[j], j, n, es);
          RunsApart(ht[j], starts[j], ht[k], starts[k], j, k, n, es);
          RunMoves(ht[j], starts[j], j, n, es, pos, pNew);
        }
        RunGrows(ht[k], starts[k], k, n, es, pos, pNew);
        hide InBucket;
        ht := ht[k := Bucket(ht[k].count + 1, pNew)];
        Starts := seq(n, j requires 0 <= j < n => if j == k then pos else StartAfterInsert(starts[j], pos));
      }
    }

    /** Link a new element into the list, at the head of its bucket or of the list. */
    method InsertElement(pNew: HashElem)
      requires Shape() && pNew !in Elems && pNew in Nodes
      modifies this`first, this`ht, this`Elems, this`Starts, Nodes`next, Nodes`prev
      ensures Shape() && htsize == old(htsize)
      ensures |Elems| == |old(Elems)| + 1 && forall e :: e in Elems <==> e in old(Elems) || e == pNew
      ensures forall e :: e in Nodes && e !in Elems ==> e.next == old(e.next)
    {
      hide Bucketed, Linked, Distinct;
      var pHead;
      ghost var pos;
      pHead, pos := BucketIn(pNew);
      LinkIn(pNew, pHead, pos);
      InsertedMembers(Elems, pos, pNew);
      Elems := Inserted(Elems, pos, pNew);
    }

    /** findElementWithHash() */
    method FindElement(key: Key) returns (elem: HashElem?, h: nat, ghost pos: nat)
      requires Valid()
      ensures h == HashOf(key)
      ensures elem != null ==> pos < |Elems| && Elems[pos] == elem && Fold(elem.pKey) == Fold(key)
      ensures elem != null ==> Fold(key) in Map && Map[Fold(key)] == Entry(elem.pKey, elem.data) && elem.data != 0
      ensures elem == null ==> Fold(key) !in Map
    {
      hide HashOf, Fold, Distinct;
      h := StrHash(key);
      elem := first;
      var left := count;
      ghost var start := 0;
      if htsize > 0 {
        elem, left := ht[h % htsize].chain, ht[h % htsize].count;
        start := Starts[h % htsize];
        assert InBucket(ht[h % htsize], start, h % htsize, htsize, Elems);
      }
      elem, pos := Scan(elem, left, first, Elems, start, key, h);
      if elem == null {
        NotHeld(Elems, Map, key, start, left);
      } else {
        assert Says(elem, Map);
      }
    }

    /** The loop over `left` entries from `chain` on. */
    static method Scan(chain: HashElem?, left: nat, ghost first: HashElem?, ghost es: seq<HashElem>, ghost start: nat,
                       key: Key, h: nat)
      returns (elem: HashElem?, ghost pos: nat)
      requires Linked(first, es) && start + left <= |es| && (left > 0 ==> chain == es[start])
      ensures elem != null ==> pos < |es| && es[pos] == elem && Fold(elem.pKey) == Fold(key)
      ensures elem == null ==>
                forall i: nat :: start <= i < start + left ==> es[i].h != h || Fold(es[i].pKey) != Fold(key)
    {
      hide HashOf, Fold;
      elem := chain;
      var rest := left;
      pos := start;
      while rest > 0
        invariant start <= pos && pos + rest == start + left
        invariant rest > 0 ==> elem == es[pos]
        invariant forall i: nat :: start <= i < pos ==> es[i].h != h || Fold(es[i].pKey) != Fold(key)
      {
        if h == elem.h {
          var same := EqualIgnoringCase(elem.pKey, key);
          if same { return; }
        }
        elem, rest, pos := elem.next, rest - 1, pos + 1;
      }
      elem := null;
    }

    /** sqlite3HashFind(): the data of the key, or a null pointer. */
    method Find(key: Key) returns (data: nat)
      requires Valid()
      ensures data == if Fold(key) in Map then Map[Fold(key)].data else 0
      ensures data == 0 <==> Fold(key) !in Map
    {
      hide HashOf, Fold;
      var elem, h;
      ghost var pos;
      elem, h, pos := FindElement(key);
      data := if elem == null then 0 else elem.data;
    }

    /** sqlite3HashClear(): frees each entry once. */
    method Clear() returns (ghost freed: seq<HashElem>)
      requires Linked(first, Elems)
      modifies this
      ensures Valid() && Map == map[] && Nodes == {} && freed == old(Elems)
    {
      freed := FreeAll(first, Elems);
      first, ht, htsize, count := null, [], 0, 0;
      Elems, Nodes, Starts, Map := [], {}, [], map[];
    }

    static method FreeAll(first: HashElem?, ghost es: seq<HashElem>) returns (ghost freed: seq<HashElem>)
      requires Linked(first, es)
      ensures freed == es
    {
      var elem := first;
      freed := [];
      ghost var i := 0;
      while elem != null
        invariant i <= |es| && freed == es[..i] && elem == ElemAt(es, i)
        decreases |es| - i
      {
        var next := elem.next;
        freed := freed + [elem];
        i := i + 1;
        elem := next;
      }
    }

    /** rehash(): new buckets, as many as the memory allocated for them holds; none when the allocation fails. */
    method Rehash(newSize: nat) returns (r: bool)
      requires Shape()
      modifies this`first, this`ht, this`htsize, this`Elems, this`Starts, Nodes`next, Nodes`prev
      ensures Shape() && r == (newSize > 0) && htsize == if r then newSize else old(htsize)
      ensures |Elems| == |old(Elems)| && forall e :: e in Elems <==> e in old(Elems)
    {
      if newSize == 0 { return false; }
      ghost var es := Elems;
      var elem := first;
      htsize := newSize;
      ht := seq(newSize, _ => Bucket(0, null));
      first := null;
      Elems, Starts := [], seq(newSize, _ => 0);
      assert Shape();
      assert Remaining(es, 0);
      hide Bucketed, Linked, InBucket, Inserted, InFirst, Distinct, Remaining;
      ghost var i := 0;
      while elem != null
        invariant i <= |es| && elem == ElemAt(es, i) && Remaining(es, i) && Shape() && htsize == newSize
        invariant |Elems| == i && forall e :: e in Elems <==> InFirst(es, i, e)
        decreases |es| - i
      {
        elem := MoveOne(elem, es, i);
        i := i + 1;
      }
      AllMoved(es);
      r := true;
    }

    /** The entries that are still to be linked again, in the order of the old list. */
    ghost predicate Remaining(es: seq<HashElem>, i: nat)
      reads this, es`next
    {
      Distinct(es) && (forall e :: e in es ==> e in Nodes) &&
      forall j: nat :: i <= j < |es| ==> es[j].next == ElemAt(es, j + 1)
    }

    lemma AllMoved(es: seq<HashElem>)
      ensures forall e :: InFirst(es, |es|, e) <==> e in es
    {
    }

    /** One turn of the loop in rehash(). */
    method MoveOne(elem: HashElem, ghost es: seq<HashElem>, ghost i: nat) returns (next: HashElem?)
      requires Shape() && i < |es| && elem == es[i] && Remaining(es, i)
      requires |Elems| == i && forall e :: e in Elems <==> InFirst(es, i, e)
      modifies this`first, this`ht, this`Elems, this`Starts, Nodes`next, Nodes`prev
      ensures next == ElemAt(es, i + 1) && Shape() && htsize == old(htsize) && Remaining(es, i + 1)
      ensures |Elems| == i + 1 && forall e :: e in Elems <==> InFirst(es, i + 1, e)
    {
      hide Bucketed, Linked;
      next := elem.next;
      FirstIn(es, i);
      InsertElement(elem);
      FirstIn(es, i);
    }

    /** Take an element out of the list. */
    method LinkOut(elem: HashElem, ghost pos: nat)
      requires Linked(first, Elems) && Distinct(Elems) && pos < |Elems| && Elems[pos] == elem
      requires forall e :: e in Elems ==> e in Nodes
      modifies this`first, Nodes`next, Nodes`prev
      ensures Linked(first, Removed(Elems, pos)) && Distinct(Removed(Elems, pos)) && elem.next == ElemAt(Elems, pos + 1)
    {
      ghost var es := Elems;
      if elem.prev != null {
        elem.prev.next := elem.next;
      } else {
        first := elem.next;
      }
      if elem.next != null {
        elem.next.prev := elem.prev;
      }
      LinksPast(first, es, pos);
    }

    /** Take an element out of its bucket. */
    method BucketOut(elem: HashElem, ghost pos: nat)
      requires htsize == |ht| && Bucketed(ht, Starts, Elems) && pos < |Elems| && Elems[pos] == elem
      requires Distinct(Elems) && elem.next == ElemAt(Elems, pos + 1)
      modifies this`ht, this`Starts
      ensures htsize == |ht| && Bucketed(ht, Starts, Removed(Elems, pos))
    {
      if htsize > 0 {
        ghost var starts, es := Starts, Elems;
        var n := htsize;
        var k := elem.h % n;
        assert InBucket(ht[k], starts[k], k, n, es);
        RunShrinks(ht[k], starts[k], k, n, es, pos);
        assert ht[k].chain == elem <==> pos == starts[k];
        forall j: nat | j < n && j != k
          ensures InBucket(ht[j], StartAfterRemove(starts[j], pos), j, n, Removed(es, pos))
        {
          assert InBucket(ht[j], starts[j], j, n, es);
          RunFollows(ht[j], starts[j], j, n, es, pos);
        }
        hide InBucket;
        ht := ht[k := Bucket(ht[k].count - 1, if ht[k].chain == elem then elem.next else ht[k].chain)];
        Starts := seq(n, j requires 0 <= j < n => if j == k then starts[j] else StartAfterRemove(starts[j], pos));
      }
    }

    /** removeElement() */
    method RemoveElement(elem: HashElem, ghost pos: nat)
      requires Valid() && pos < |Elems| && Elems[pos] == elem
      modifies this, Nodes`next, Nodes`prev
      ensures Valid() && Map == old(Map) - {Fold(elem.pKey)} && (Nodes == old(Nodes) || Nodes == {})
    {
      hide Bucketed, Linked, Fold, Holds, Distinct;
      LinkOut(elem, pos);
      BucketOut(elem, pos);
      HoldsLess(Elems, Map, pos);
      RemovedMembers(Elems, pos);
      count := count - 1;
      Elems := Removed(Elems, pos);
      Map := Map - {Fold(elem.pKey)};
      ClearEmpty();
    }

    /** An empty table gives up its buckets. */
    method ClearEmpty()
      requires Valid()
      modifies this
      ensures Valid() && Map == old(Map) && (Nodes == old(Nodes) || Nodes == {})
    {
      if count == 0 {
        HoldsNothing(Elems, Map);
        ghost var freed := Clear();
      }
    }

    /** The entry takes the new data, and the new spelling of its key. */
    method Replace(elem: HashElem, ghost pos: nat, key: Key, data: nat)
      requires Valid() && pos < |Elems| && Elems[pos] == elem && Fold(elem.pKey) == Fold(key) && data != 0
      modifies this`Map, elem`pKey, elem`data
      ensures Valid() && Map == old(Map)[Fold(key) := Entry(key, data)]
    {
      hide Bucketed, Linked, Fold, HashOf, Distinct, Holds;
      EqualKeysHashAlike(elem.pKey, key);
      Rewrite(elem, Elems, Map, key, data);
      Map := Map[Fold(key) := Entry(key, data)];
    }

    static method Rewrite(elem: HashElem, ghost es: seq<HashElem>, ghost m: map<Key, Entry>, key: Key, data: nat)
      requires Holds(es, m) && elem in es && Fold(elem.pKey) == Fold(key) && HashOf(elem.pKey) == HashOf(key) &&
               data != 0
      modifies elem`pKey, elem`data
      ensures Holds(es, m[Fold(key) := Entry(key, data)])
    {
      hide Fold, HashOf;
      ghost var m1 := m[Fold(key) := Entry(key, data)];
      assert Says(elem, m);
      elem.data := data;
      elem.pKey := key;
      forall e | e in es
        ensures Fold(e.pKey) == Fold(old(e.pKey)) && Says(e, m1)
      {
        assert old(Says(e, m));
        assert e != elem ==> Fold(e.pKey) != Fold(key);
      }
      forall g | g in m1
        ensures exists e :: e in es && Fold(e.pKey) == g
      {
        var e :| e in es && Fold(old(e.pKey)) == g;
        assert Fold(e.pKey) == g;
      }
    }

    /** Link a new element into the table, which may grow first. */
    method Add(pNew: HashElem, newSize: nat)
      requires Valid() && pNew !in Elems && pNew in Nodes
      requires Fold(pNew.pKey) !in Map && pNew.h == HashOf(pNew.pKey) && pNew.data != 0
      modifies this`first, this`ht, this`htsize, this`count, this`Map, this`Elems, this`Starts, Nodes`next, Nodes`prev
      ensures Valid() && Map == old(Map)[Fold(pNew.pKey) := Entry(pNew.pKey, pNew.data)]
      ensures count == old(count) + 1
      ensures htsize == if count >= 5 && count > 2 * old(htsize) && newSize > 0 then newSize else old(htsize)
    {
      hide Bucketed, Linked, Fold, HashOf, Holds, Distinct;
      ghost var es := Elems;
      count := count + 1;
      if count >= 5 && count > 2 * htsize {
        var grown := Rehash(newSize);
      }
      InsertElement(pNew);
      HoldsMore(es, Map, Elems, pNew);
      Map := Map[Fold(pNew.pKey) := Entry(pNew.pKey, pNew.data)];
    }

    /** sqlite3HashInsert(). A null pointer as data removes the key. `elemOk` says whether a new element can be
        allocated, and `newSize` how many buckets a new allocation holds. */
    method Insert(key: Key, data: nat, elemOk: bool, newSize: nat) returns (r: nat)
      requires Valid()
      modifies this, Nodes
      ensures Valid() && forall e :: e in Nodes ==> e in old(Nodes) || fresh(e)
      ensures Fold(key) in old(Map) ==>
                r == old(Map)[Fold(key)].data &&
                Map == if data == 0 then old(Map) - {Fold(key)} else old(Map)[Fold(key) := Entry(key, data)]
      ensures Fold(key) !in old(Map) && (data == 0 || !elemOk) ==> r == data && Map == old(Map)
      ensures Fold(key) !in old(Map) && data != 0 && elemOk ==> r == 0 && Map == old(Map)[Fold(key) := Entry(key, data)]
    {
      hide Bucketed, Linked, Fold, HashOf, Distinct, Holds;
      var elem, h;
      ghost var pos;
      elem, h, pos := FindElement(key);
      if elem != null {
        r := elem.data;
        if data == 0 {
          RemoveElement(elem, pos);
        } else {
          Replace(elem, pos, key, data);
        }
        return;
      }
      if data == 0 { return 0; }
      if !elemOk { return data; }
      var pNew := new HashElem(key, h, data);
      Nodes := Nodes + {pNew};
      Add(pNew, newSize);
      r := 0;
    }
  }

  /** A call of sqlite3HashInsert(). */
  datatype Call = Call(key: Key, data: nat, elemOk: bool, newSize: nat)

  /** The map after a run of calls on an empty table. */
  ghost function MapAfter(calls: seq<Call>): map<Key, Entry> {
    if calls == [] then map[]
    else
      var m, c := MapAfter(calls[..|calls| - 1]), calls[|calls| - 1];
      var f := Fold(c.key);
      if c.data == 0 then m - {f}
      else if f in m || c.elemOk then m[f := Entry(c.key, c.data)]
      else m
  }

  /** Through any run of insertions, replacements and deletions, with every answer of the allocator, the table is
      well formed and holds the map. */
  method Run(calls: seq<Call>) returns (h: Hash)
    ensures h.Valid() && h.Map == MapAfter(calls)
  {
    hide Hash.Valid, Fold;
    h := new Hash();
    for i := 0 to |calls|
      invariant h.Valid() && h.Map == MapAfter(calls[..i]) && fresh(h) && fresh(h.Nodes)
    {
      assert calls[..i + 1][..i] == calls[..i];
      var c := calls[i];
      var r := h.Insert(c.key, c.data, c.elemOk, c.newSize);
      if Fold(c.key) !in MapAfter(calls[..i]) {
        assert MapAfter(calls[..i]) - {Fold(c.key)} == MapAfter(calls[..i]);
      }
    }
    assert calls[..|calls|] == calls;
  }
}
