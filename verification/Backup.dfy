/** The online backup: a resumable copy of database pages between files whose page sizes may differ.

    A database is its bytes. The pager of the destination is the bytes it would write, whole pages at a time. */
module Backup {
  import opened Arith

  type Byte = b: int | 0 <= b < 256

  datatype Rc = OK | BUSY | LOCKED | DONE | READONLY | NOMEM | OTHER(code: int)

  /** All errors are fatal to a backup except BUSY and LOCKED. DONE counts as fatal too: nothing follows it. */
  predicate IsFatalError(rc: Rc) {
    rc != OK && rc != BUSY && rc != LOCKED
  }

  /** What the layers below answer: DONE is a code of backup steps only. */
  type Answer = rc: Rc | rc != DONE witness OK

  // -------------------- page sizes --------------------

  predicate IsPageSize(n: int) {
    n == 512 || n == 1024 || n == 2048 || n == 4096 || n == 8192 || n == 16384 || n == 32768 || n == 65536
  }

  const LARGEST_PAGE := 65536

  /** The reserved byte that locks live on, and the page around it, are at a multiple of every page size. */
  predicate IsPendingByte(p: int) {
    p > 0 && p % LARGEST_PAGE == 0
  }

  function PageOf(offset: nat, pgsz: nat): nat
    requires pgsz > 0
  {
    offset / pgsz + 1
  }

  lemma Multiple(a: int, n: nat)
    requires n > 0
    ensures (a * n) % n == 0 && a * n / n == a
  {
    QuotientIs(a * n, n, a, 0);
  }

  /** The larger of two page sizes is a multiple of the smaller. */
  function Ratio(small: nat, large: nat): (k: nat)
    requires IsPageSize(small) && IsPageSize(large) && small <= large
    ensures large == k * small
  {
    large / small
  }

  lemma SizeDivides(x: int, small: nat, large: nat)
    requires IsPageSize(small) && IsPageSize(large) && small <= large && x % large == 0
    ensures x % small == 0
  {
    assert 0 < large;
    hide IsPageSize;
    var k, q := Ratio(small, large), x / large;
    assert x == large * q;
    assert x == (k * q) * small by { assert (k * small) * q == (k * q) * small; }
    Multiple(k * q, small);
  }

  /** Offsets on the same page. */
  lemma SamePage(p: nat, b: nat, n: nat)
    requires n > 0 && p % n == 0
    ensures PageOf(b, n) == PageOf(p, n) <==> p <= b < p + n
  {
    var q := p / n;
    assert p == n * q;
    assert b == n * (b / n) + b % n;
    if p <= b < p + n {
      QuotientIs(b, n, q, b - p);
    }
  }

  /** An aligned chunk of a small page stays inside one large page. */
  lemma ChunkInPage(b: nat, small: nat, large: nat)
    requires IsPageSize(small) && IsPageSize(large) && small <= large && b % small == 0
    ensures b % large + small <= large
  {
    assert 0 < small <= large && large % small == 0;
    var r := b % large;
    assert b == large * (b / large) + r;
    hide Ratio, IsPageSize;
    assert r % small == 0 by {
      Multiple(b / large, large);
      SizeDivides(b / large * large, small, large);
      assert b - b / large * large == r;
      DifferenceDivides(b, b / large * large, small);
    }
    DifferenceDivides(large, r, small);
    if large - r < small {
      QuotientIs(large - r, small, 0, large - r);
    }
  }

  lemma DifferenceDivides(a: int, b: int, n: nat)
    requires n > 0 && a % n == 0 && b % n == 0
    ensures (a - b) % n == 0
  {
    assert a == n * (a / n) && b == n * (b / n);
    assert a - b == (a / n - b / n) * n;
    Multiple(a / n - b / n, n);
  }

  // -------------------- bytes --------------------

  /** The byte at an offset, or -1 past the end. */
  function At(d: seq<Byte>, b: int): int {
    if 0 <= b < |d| then d[b] else -1
  }

  /** The file, with zeros up to length `n`. */
  function Padded(d: seq<Byte>, n: nat): (e: seq<Byte>)
    ensures |e| == if |d| < n then n else |d|
  {
    if |d| < n then d + seq(n - |d|, _ => 0) else d
  }

  /** Write `data` at an offset of a file. */
  function Written(d: seq<Byte>, offset: nat, data: seq<Byte>): (e: seq<Byte>)
    ensures |e| == if |d| < offset + |data| then offset + |data| else |d|
  {
    var p := Padded(d, offset + |data|);
    p[..offset] + data + p[offset + |data|..]
  }

  lemma WrittenAt(d: seq<Byte>, offset: nat, data: seq<Byte>, b: int)
    ensures At(Written(d, offset, data), b) ==
            if offset <= b < offset + |data| then data[b - offset]
            else if 0 <= b < |d| then At(d, b)
            else if |d| <= b < offset then 0
            else -1
  {
  }

  /** Write to a page that exists as a whole. */
  function PageWritten(d: seq<Byte>, size: nat, offset: nat, data: seq<Byte>): (e: seq<Byte>)
    ensures |d| <= |e|
  {
    Written(Padded(d, size), offset, data)
  }

  lemma PageWrittenAt(d: seq<Byte>, size: nat, offset: nat, data: seq<Byte>, b: int)
    ensures offset <= b < offset + |data| ==> At(PageWritten(d, size, offset, data), b) == data[b - offset]
    ensures 0 <= b < |d| && !(offset <= b < offset + |data|) ==> At(PageWritten(d, size, offset, data), b) == At(d, b)
  {
    WrittenAt(Padded(d, size), offset, data, b);
  }

  /** The bytes of page 1 that hold the size of the database. */
  predicate IsSizeField(b: int) { 28 <= b < 32 }

  /** The bytes of page 1 that a commit rewrites: format versions, change counter, size, schema cookie and
      the version-valid-for and library version numbers. */
  predicate IsCommitField(b: int) {
    18 <= b < 20 || 24 <= b < 32 || 40 <= b < 44 || 92 <= b < 100
  }

  /** `d1` is `d0` with `data` copied to `[start, end)`, except for the destination's pending-byte page
      and, in the first page, the size field. All else is unchanged. */
  ghost predicate Copied(d0: seq<Byte>, d1: seq<Byte>, data: seq<Byte>, start: nat, end: nat, pending: nat, pgsz: nat) {
    |d0| <= |d1| &&
    forall b {:trigger At(d1, b)} ::
      if start <= b < end && !(pending <= b < pending + pgsz) then
        0 <= b - start < |data| && (At(d1, b) == data[b - start] || (IsSizeField(b) && 0 <= At(d1, b)))
      else 0 <= b < |d0| ==> At(d1, b) == At(d0, b)
  }

  lemma CopiedNothing(d: seq<Byte>, data: seq<Byte>, start: nat, pending: nat, pgsz: nat)
    ensures Copied(d, d, data, start, start, pending, pgsz)
  {
  }

  /** The copy of `[start, end)` stopped at `e`: what comes before is copied, and nothing was written behind. */
  ghost predicate StoppedAt(d0: seq<Byte>, d1: seq<Byte>, data: seq<Byte>, e: nat, start: nat, end: nat, pending: nat,
                            pgsz: nat) {
    start <= e < end && Copied(d0, d1, data, start, e, pending, pgsz) && |d1| <= MaxInt(|d0|, e)
  }

  /** Two adjacent pieces. */
  lemma CopiedMore(d0: seq<Byte>, d1: seq<Byte>, d2: seq<Byte>, data: seq<Byte>, start: nat, mid: nat, end: nat,
                   pending: nat, pgsz: nat)
    requires start <= mid <= end <= start + |data|
    requires Copied(d0, d1, data, start, mid, pending, pgsz)
    requires Copied(d1, d2, data[mid - start..end - start], mid, end, pending, pgsz)
    ensures Copied(d0, d2, data, start, end, pending, pgsz)
  {
    forall b {:trigger At(d2, b)}
      ensures if start <= b < end && !(pending <= b < pending + pgsz) then
                0 <= b - start < |data| && (At(d2, b) == data[b - start] || (IsSizeField(b) && 0 <= At(d2, b)))
              else 0 <= b < |d0| ==> At(d2, b) == At(d0, b)
    {
      var x := At(d1, b);
    }
  }

  function MinInt(a: int, b: int): int { if a <= b then a else b }

  function Put4(n: int): (s: seq<Byte>)
    ensures |s| == 4
  {
    [n / 0x100_0000 % 256, n / 0x1_0000 % 256, n / 256 % 256, n % 256]
  }

  /** A number of 32 bits is stored with its most significant byte first. */
  lemma Put4Is(n: nat)
    requires n < 0x1_0000_0000
    ensures var s := Put4(n);
            n == (s[0] as int) * 0x100_0000 + (s[1] as int) * 0x1_0000 + (s[2] as int) * 0x100 + s[3] as int
  {
    var q1 := n / 256;
    var q2 := q1 / 256;
    var q3 := q2 / 256;
    assert n / 0x1_0000 == q2 && n / 0x100_0000 == q3 && q3 < 256;
    assert n == 256 * q1 + n % 256 && q1 == 256 * q2 + q1 % 256 && q2 == 256 * q3 + q2 % 256;
  }

  /** The size field of a file. */
  ghost predicate SizeIs(d: seq<Byte>, size: seq<Byte>)
    requires |size| == 4
  {
    forall b :: IsSizeField(b) ==> At(d, b) == size[b - 28]
  }

  /** What page 1 has in its size field when it was copied: the size of the source, or what the source has. */
  function SizeFor(bUpdate: bool, data: seq<Byte>, nPage: nat): (s: seq<Byte>)
    requires 32 <= |data|
    ensures |s| == 4
  {
    if bUpdate then data[28..32] else Put4(nPage)
  }

  /** The file has the size field of a copied page 1. */
  ghost predicate HasSize(d: seq<Byte>, bUpdate: bool, data: seq<Byte>, nPage: nat) {
    32 <= |data| && SizeIs(d, SizeFor(bUpdate, data, nPage))
  }

  lemma SameSizeField(bUpdate: bool, data: seq<Byte>, n: nat, nPage: nat, d: seq<Byte>)
    requires 32 <= n <= |data| && HasSize(d, bUpdate, data[0..n], nPage)
    ensures HasSize(d, bUpdate, data, nPage)
  {
    hide SizeIs, Put4;
    assert data[0..n][28..32] == data[28..32];
  }

  lemma SizeWritten(d: seq<Byte>, X: nat, size: seq<Byte>)
    requires |size| == 4
    ensures SizeIs(PageWritten(d, X, 28, size), size)
  {
    var e := PageWritten(d, X, 28, size);
    hide PageWritten;
    forall b | IsSizeField(b)
      ensures At(e, b) == size[b - 28]
    {
      PageWrittenAt(d, X, 28, size, b);
    }
  }

  lemma SizeInPage(d: seq<Byte>, X: nat, chunk: seq<Byte>)
    requires 32 <= |chunk|
    ensures SizeIs(PageWritten(d, X, 0, chunk), chunk[28..32])
  {
    var e := PageWritten(d, X, 0, chunk);
    hide PageWritten;
    forall b | IsSizeField(b)
      ensures At(e, b) == chunk[28..32][b - 28]
    {
      PageWrittenAt(d, X, 0, chunk, b);
    }
  }

  /** Pieces behind the size field leave it alone. */
  lemma SizeStays(d0: seq<Byte>, d1: seq<Byte>, chunk: seq<Byte>, start: nat, end: nat, pending: nat, pgsz: nat,
                  bUpdate: bool, data: seq<Byte>, nPage: nat)
    requires HasSize(d0, bUpdate, data, nPage) && 32 <= start && Copied(d0, d1, chunk, start, end, pending, pgsz)
    ensures HasSize(d1, bUpdate, data, nPage)
  {
    var size := SizeFor(bUpdate, data, nPage);
    hide SizeFor;
    forall b | IsSizeField(b)
      ensures At(d1, b) == size[b - 28]
    {
      assert At(d0, b) == size[b - 28];
    }
  }

  /** A chunk lies on one destination page: the pending-byte page or another one. */
  lemma ChunkPlace(b: nat, len: nat, n: nat, pending: nat)
    requires IsPageSize(len) && IsPageSize(n) && len <= n && b % len == 0 && IsPendingByte(pending)
    ensures b % n + len <= n
    ensures if PageOf(b, n) == PageOf(pending, n) then pending <= b && b + len <= pending + n
            else b + len <= pending || pending + n <= b
  {
    ChunkInPage(b, len, n);
    SizeDivides(pending, n, LARGEST_PAGE);
    SamePage(pending, b, n);
    hide IsPageSize;
    var q := pending / n;
    assert pending == q * n;
    if b < pending {
      MulMono(n, b / n + 1, q);
    }
  }

  /** What writing a chunk to its page does. */
  lemma ChunkCopied(d: seq<Byte>, chunk: seq<Byte>, b: nat, X: nat, pending: nat, n: nat)
    requires b + |chunk| <= pending || pending + n <= b
    ensures Copied(d, PageWritten(d, X, b, chunk), chunk, b, b + |chunk|, pending, n)
  {
    var e := PageWritten(d, X, b, chunk);
    hide PageWritten;
    forall i {:trigger At(e, i)}
      ensures if b <= i < b + |chunk| && !(pending <= i < pending + n) then
                0 <= i - b < |chunk| && (At(e, i) == chunk[i - b] || (IsSizeField(i) && 0 <= At(e, i)))
              else 0 <= i < |d| ==> At(e, i) == At(d, i)
    {
      PageWrittenAt(d, X, b, chunk, i);
    }
  }

  /** Writing the size field on top. */
  lemma SizeCopied(d: seq<Byte>, d1: seq<Byte>, chunk: seq<Byte>, X: nat, pending: nat, n: nat, size: seq<Byte>)
    requires Copied(d, d1, chunk, 0, |chunk|, pending, n) && |chunk| <= pending
    requires |size| == 4 && 32 <= |chunk|
    ensures Copied(d, PageWritten(d1, X, 28, size), chunk, 0, |chunk|, pending, n)
  {
    var e := PageWritten(d1, X, 28, size);
    hide PageWritten;
    forall i {:trigger At(e, i)}
      ensures if 0 <= i < |chunk| && !(pending <= i < pending + n) then
                0 <= i < |chunk| && (At(e, i) == chunk[i] || (IsSizeField(i) && 0 <= At(e, i)))
              else 0 <= i < |d| ==> At(e, i) == At(d, i)
    {
      PageWrittenAt(d1, X, 28, size, i);
      var y := At(d1, i);
    }
  }

  lemma ChunkSkipped(d: seq<Byte>, chunk: seq<Byte>, b: nat, pending: nat, n: nat)
    requires pending <= b && b + |chunk| <= pending + n
    ensures Copied(d, d, chunk, b, b + |chunk|, pending, n)
  {
  }

  /** Where the loop over destination pages stands inside a source page. */
  ghost predicate ChunkAt(b: nat, start: nat, s: nat, n: nat) {
    s > 0 && n > 0 && start <= b &&
    (b < start + s ==> b + MinInt(s, n) <= start + s && b % MinInt(s, n) == 0 && b % s == b - start)
  }

  lemma PageStart(iPg: nat, s: nat, n: nat)
    requires 0 < iPg && IsPageSize(s) && IsPageSize(n)
    ensures iPg * s == (iPg - 1) * s + s && 0 <= (iPg - 1) * s && (iPg - 1) * s % s == 0 &&
            ChunkAt((iPg - 1) * s, (iPg - 1) * s, s, n)
  {
    var start := (iPg - 1) * s;
    Multiple(iPg - 1, s);
    SizeDivides(start, MinInt(s, n), s);
  }

  lemma NextChunk(b: nat, start: nat, s: nat, n: nat)
    requires IsPageSize(s) && IsPageSize(n) && start % s == 0 && b < start + s && ChunkAt(b, start, s, n)
    ensures ChunkAt(b + n, start, s, n) && b + MinInt(s, n) == MinInt(b + n, start + s)
  {
    if n < s {
      SizeDivides(start, n, s);
      SizeDivides(s, n, s);
      assert 0 < n < s;
      hide IsPageSize;
      SumDivides(b, n, n);
      SumDivides(start, s, n);
      DifferenceDivides(start + s, b + n, n);
      NextInPage(b + n, start, s);
      FitsWhole(start + s - (b + n), n);
    }
  }

  lemma SumDivides(a: int, b: int, n: nat)
    requires n > 0 && a % n == 0 && b % n == 0
    ensures (a + b) % n == 0
  {
    assert a == n * (a / n) && b == n * (b / n);
    assert a + b == (a / n + b / n) * n;
    Multiple(a / n + b / n, n);
  }

  lemma NextInPage(b: int, start: nat, s: nat)
    requires s > 0 && start % s == 0
    ensures start <= b < start + s ==> b % s == b - start
  {
    if start <= b < start + s {
      QuotientIs(b, s, start / s, b - start);
    }
  }

  lemma FitsWhole(rest: int, n: nat)
    requires n > 0 && rest % n == 0
    ensures rest > 0 ==> rest >= n
  {
    if 0 < rest < n {
      QuotientIs(rest, n, 0, rest);
    }
  }

  /** Where the loop of backupOnePage() stands: of the page that starts at `start`, everything up to `b` is copied
      from file `d0` to `d`. */
  ghost predicate PieceDone(d0: seq<Byte>, d: seq<Byte>, data: seq<Byte>, start: nat, b: nat, s: nat, n: nat,
                            pending: nat, bUpdate: bool, nPage: nat) {
    |data| == s && ChunkAt(b, start, s, n) && Copied(d0, d, data, start, MinInt(b, start + s), pending, n) &&
    (start == 0 && b > 0 ==> 512 <= b && HasSize(d, bUpdate, data, nPage)) && |d| <= MaxInt(|d0|, b)
  }

  lemma PieceStarts(d: seq<Byte>, data: seq<Byte>, iPg: nat, s: nat, n: nat, pending: nat, bUpdate: bool, nPage: nat)
    requires 0 < iPg && |data| == s && IsPageSize(s) && IsPageSize(n)
    ensures var start := (iPg - 1) * s;
            0 <= start && start % s == 0 && iPg * s == start + s && 512 <= s && 512 <= n &&
            PieceDone(d, d, data, start, start, s, n, pending, bUpdate, nPage)
  {
    hide Copied, ChunkAt;
    PageStart(iPg, s, n);
    CopiedNothing(d, data, (iPg - 1) * s, pending, n);
  }

  /** What is known of the piece at `b`. */
  lemma PieceParts(d0: seq<Byte>, d: seq<Byte>, data: seq<Byte>, start: nat, b: nat, s: nat, n: nat,
                   pending: nat, bUpdate: bool, nPage: nat)
    requires PieceDone(d0, d, data, start, b, s, n, pending, bUpdate, nPage) && b < start + s
    requires IsPageSize(s) && IsPageSize(n)
    ensures ChunkAt(b, start, s, n) && 512 <= n && 512 <= MinInt(s, n) && start <= b &&
            b + MinInt(s, n) <= start + s && b % MinInt(s, n) == 0 && b % s == b - start
    ensures |data| == s && |d| <= MaxInt(|d0|, b) && Copied(d0, d, data, start, b, pending, n)
    ensures start == 0 && b > 0 ==> 512 <= b && HasSize(d, bUpdate, data, nPage)
  {
    hide Copied, HasSize;
  }

  /** What one turn of the loop adds. */
  lemma PieceGrows(d0: seq<Byte>, d1: seq<Byte>, d2: seq<Byte>, data: seq<Byte>, chunk: seq<Byte>, start: nat, b: nat,
                   s: nat, n: nat, pending: nat, bUpdate: bool, nPage: nat)
    requires start <= b < start + s && start % s == 0 && IsPageSize(s) && IsPageSize(n)
    requires PieceDone(d0, d1, data, start, b, s, n, pending, bUpdate, nPage)
    requires |chunk| == MinInt(s, n) && b - start + |chunk| <= |data| && chunk == data[b - start..b - start + |chunk|]
    requires Copied(d1, d2, chunk, b, b + |chunk|, pending, n) && |d2| <= MaxInt(|d1|, b + n)
    requires b == 0 ==> HasSize(d2, bUpdate, chunk, nPage)
    ensures PieceDone(d0, d2, data, start, b + n, s, n, pending, bUpdate, nPage)
  {
    hide Copied, IsPageSize, ChunkAt, HasSize, PieceDone, MinInt;
    PieceParts(d0, d1, data, start, b, s, n, pending, bUpdate, nPage);
    NextChunk(b, start, s, n);
    CopiedMore(d0, d1, d2, data, start, b, b + |chunk|, pending, n);
    if start == 0 {
      SizeField(d1, d2, data, chunk, b, n, pending, bUpdate, nPage);
    }
    PieceIs(d0, d2, data, start, b + n, s, n, pending, bUpdate, nPage);
  }

  /** The size field behind one turn of the loop on the first page. */
  lemma SizeField(d1: seq<Byte>, d2: seq<Byte>, data: seq<Byte>, chunk: seq<Byte>, b: nat, n: nat, pending: nat,
                  bUpdate: bool, nPage: nat)
    requires 32 <= |chunk| && b + |chunk| <= |data| && chunk == data[b..b + |chunk|]
    requires Copied(d1, d2, chunk, b, b + |chunk|, pending, n)
    requires if b == 0 then HasSize(d2, bUpdate, chunk, nPage) else 32 <= b && HasSize(d1, bUpdate, data, nPage)
    ensures HasSize(d2, bUpdate, data, nPage)
  {
    hide Copied, HasSize;
    if b == 0 {
      SameSizeField(bUpdate, data, |chunk|, nPage, d2);
    } else {
      SizeStays(d1, d2, chunk, b, b + |chunk|, pending, n, bUpdate, data, nPage);
    }
  }

  lemma PieceIs(d0: seq<Byte>, d: seq<Byte>, data: seq<Byte>, start: nat, b: nat, s: nat, n: nat,
                pending: nat, bUpdate: bool, nPage: nat)
    requires |data| == s && ChunkAt(b, start, s, n) && Copied(d0, d, data, start, MinInt(b, start + s), pending, n)
    requires (start == 0 ==> 512 <= b && HasSize(d, bUpdate, data, nPage)) && |d| <= MaxInt(|d0|, b)
    ensures PieceDone(d0, d, data, start, b, s, n, pending, bUpdate, nPage)
  {
    hide Copied, ChunkAt, HasSize;
  }

  lemma PieceEnds(d0: seq<Byte>, d: seq<Byte>, data: seq<Byte>, start: nat, b: nat, s: nat, n: nat,
                  pending: nat, bUpdate: bool, nPage: nat)
    requires PieceDone(d0, d, data, start, b, s, n, pending, bUpdate, nPage) && start + s <= b && 0 < s
    ensures Copied(d0, d, data, start, start + s, pending, n) && (start == 0 ==> HasSize(d, bUpdate, data, nPage))
  {
    hide Copied, ChunkAt, HasSize;
  }

  // -------------------- the files --------------------

  class Pager {
    var bytes: seq<Byte>
    var pgsz: nat

    /** The number of pages. */
    function PageCount(): nat
      requires pgsz > 0
      reads this
    {
      |bytes| / pgsz
    }

    /** Modify the page around an offset, fetched for writing: the whole page exists from then on. */
    method PutPage(iOff: nat, data: seq<Byte>)
      requires 0 < pgsz && iOff % pgsz + |data| <= pgsz
      modifies this`bytes
      ensures bytes == PageWritten(old(bytes), PageEnd(iOff, pgsz), iOff, data)
    {
      bytes := PageWritten(bytes, PageEnd(iOff, pgsz), iOff, data);
    }
  }

  /** Writing to a page makes the file no longer than to the end of the page. */
  lemma PageEndBound(d: seq<Byte>, b: nat, n: nat, data: seq<Byte>)
    requires 0 < n && b % n + |data| <= n
    ensures |PageWritten(d, PageEnd(b, n), b, data)| == MaxInt(|d|, PageEnd(b, n)) && b < PageEnd(b, n) <= b + n
    ensures b < n ==> PageEnd(b, n) == n
  {
    PageEndAfter(b, n);
    hide PageEnd;
  }

  lemma PageEndAfter(b: nat, n: nat)
    requires 0 < n
    ensures b < PageEnd(b, n) && b - b % n + n == PageEnd(b, n) && (b < n ==> PageEnd(b, n) == n)
  {
    var q := b / n;
    assert b == n * q + b % n;
    assert PageEnd(b, n) == n * q + n;
    if b < n {
      QuotientIs(b, n, 0, b);
    }
  }

  /** The end of the page around an offset. */
  function PageEnd(b: nat, n: nat): nat
    requires n > 0
  {
    (b / n + 1) * n
  }

  /** What the pagers answer: fetching a source page, fetching and journalling a destination page, and
      writing to the destination file directly. */
  datatype Io = Io(getSrc: nat -> Answer, getDest: nat -> Answer, osWrite: nat -> Answer)

  datatype FinishOp = NewDb | UpdateMeta | SetVersion | CommitOne | Truncate | Sync | CommitTwo

  /** What a call of sqlite3_backup_step() finds: a write transaction on the source, the answers of the
      Btree layer, the page size that the destination ends up with, the start of page 1 of an empty database
      and the header bytes that a commit stores. */
  datatype Env = Env(srcInWrite: bool, beginSrc: Answer, pgszNomem: bool, newPgsz: nat, beginDest: Answer,
                     wal: bool, memdb: bool, io: Io, finish: FinishOp -> Answer, newPage: seq<Byte>, header: seq<Byte>)

  predicate IsTransient(rc: Rc) { rc == BUSY || rc == LOCKED }

  ghost predicate NoTransient(io: Io) {
    forall n: nat :: !IsTransient(io.getSrc(n)) && !IsTransient(io.getDest(n)) && !IsTransient(io.osWrite(n))
  }

  /** Once both databases are locked, no page and no finishing operation reports BUSY or LOCKED. */
  ghost predicate Settled(env: Env) {
    NoTransient(env.io) && forall op: FinishOp :: !IsTransient(env.finish(op))
  }

  // -------------------- what a step answers --------------------

  /** A layer below failed with `rc`. */
  ghost predicate Fails(env: Env, rc: Rc) {
    rc != OK &&
    ((exists n: nat :: rc == env.io.getSrc(n) || rc == env.io.getDest(n) || rc == env.io.osWrite(n)) ||
     exists op: FinishOp :: rc == env.finish(op))
  }

  /** Every layer answers OK to everything. */
  ghost predicate AllOk(env: Env) {
    (forall n: nat :: env.io.getSrc(n) == OK && env.io.getDest(n) == OK && env.io.osWrite(n) == OK) &&
    forall op: FinishOp :: env.finish(op) == OK
  }

  const IOERR_NOMEM := OTHER(3082)

  /** The code that a step stores and returns for a failure. */
  function Reported(rc: Rc): Rc { if rc == IOERR_NOMEM then NOMEM else rc }

  /** Both transactions can be opened; `locked` says whether the destination is open already. */
  predicate Opens(env: Env, locked: bool) {
    !env.srcInWrite && env.beginSrc == OK && (locked || (!env.pgszNomem && env.beginDest == OK))
  }

  /** The page size that the destination has once it is locked. */
  function DestSize(env: Env, locked: bool, n: nat): nat { if locked then n else env.newPgsz }

  /** A WAL or memory file cannot change its page size. */
  predicate SizesClash(env: Env, s: nat, n: nat) { (env.wal || env.memdb) && s != n }

  /** The answer of the guards: the first of them that fails. */
  ghost predicate GuardAnswer(env: Env, locked: bool, s: nat, n: nat, r: Rc) {
    (env.srcInWrite ==> r == BUSY) &&
    (!env.srcInWrite && env.beginSrc != OK ==> r == env.beginSrc) &&
    (!env.srcInWrite && env.beginSrc == OK && !locked && env.pgszNomem ==> r == NOMEM) &&
    (!env.srcInWrite && env.beginSrc == OK && !locked && !env.pgszNomem && env.beginDest != OK ==>
       r == env.beginDest) &&
    (Opens(env, locked) && SizesClash(env, s, n) ==> r == READONLY) &&
    (r == OK <==> Opens(env, locked) && !SizesClash(env, s, n))
  }

  /** What the guards compute, one after the other. */
  function Guards(env: Env, locked: bool, s: nat, n: nat): Answer {
    if env.srcInWrite then BUSY
    else if env.beginSrc != OK then env.beginSrc
    else if !locked && env.pgszNomem then NOMEM
    else if !locked && env.beginDest != OK then env.beginDest
    else if SizesClash(env, s, n) then READONLY
    else OK
  }

  lemma GuardsAnswer(env: Env, locked: bool, s: nat, n: nat, r: Answer)
    requires r == Guards(env, locked, s, n)
    ensures GuardAnswer(env, locked, s, n, r)
  {
  }

  /** The answer of a step with `left` pages to go: the one of the first guard that fails; DONE when all pages are
      asked for, and OK otherwise; or a failure of a layer below. */
  ghost predicate StepAnswer(env: Env, locked: bool, s: nat, n: nat, left: int, nPage: int, r: Rc) {
    var all := nPage < 0 || left <= nPage;
    (exists g :: GuardAnswer(env, locked, s, n, g) &&
       if g != OK then r == Reported(g)
       else r == (if all then DONE else OK) || exists f :: Fails(env, f) && r == Reported(f)) &&
    (r == OK || r == DONE ==> Opens(env, locked) && !SizesClash(env, s, n)) &&
    (Opens(env, locked) && !SizesClash(env, s, n) && AllOk(env) ==> r == if all then DONE else OK)
  }

  /** Every operation that finishes a backup succeeded: of an empty source, or to larger pages. */
  predicate Committed(env: Env, empty: bool, larger: bool) {
    (empty ==> env.finish(NewDb) == OK) && env.finish(UpdateMeta) == OK && (env.wal ==> env.finish(SetVersion) == OK) &&
    env.finish(CommitOne) == OK && (larger ==> env.finish(Truncate) == OK && env.finish(Sync) == OK) &&
    env.finish(CommitTwo) == OK
  }

  /** A failure of a layer below; once both files are locked, it is neither BUSY nor LOCKED. */
  lemma CopyingFails(env: Env, rc: Rc)
    requires rc != OK && rc != DONE ==>
               exists n: nat :: rc == env.io.getSrc(n) || rc == env.io.getDest(n) || rc == env.io.osWrite(n)
    ensures rc != OK && rc != DONE ==> Fails(env, rc) && (Settled(env) ==> !IsTransient(rc))
  {
  }

  lemma FinishFails(env: Env, op: FinishOp)
    ensures env.finish(op) != OK ==> Fails(env, env.finish(op))
    ensures Settled(env) ==> !IsTransient(env.finish(op))
  {
  }

  lemma AnswerIs(env: Env, locked: bool, s: nat, n: nat, left: int, nPage: int, g: Answer, f: Rc)
    requires GuardAnswer(env, locked, s, n, g)
    requires if g != OK then f == g
             else f == (if nPage < 0 || left <= nPage then DONE else OK) || Fails(env, f)
    ensures StepAnswer(env, locked, s, n, left, nPage, Reported(f))
  {
  }

  // -------------------- how far the copy has come --------------------

  function MaxInt(a: int, b: int): int { if a >= b then a else b }

  /** Offset `b` lies in the pending-byte page of one of the two files. */
  predicate InPendingPages(b: int, pending: nat, s: nat, n: nat) {
    pending <= b < pending + MaxInt(s, n)
  }

  ghost predicate SameByte(src: seq<Byte>, dest: seq<Byte>, b: int) {
    At(dest, b) == At(src, b) || (IsSizeField(b) && 0 <= At(dest, b))
  }

  /** The source up to an offset is in the destination. */
  ghost predicate Current(src: seq<Byte>, dest: seq<Byte>, upto: int, pending: nat, s: nat, n: nat) {
    forall b :: 0 <= b < upto && b < |src| && !InPendingPages(b, pending, s, n) ==> SameByte(src, dest, b)
  }

  lemma CurrentByCopy(src: seq<Byte>, d0: seq<Byte>, d1: seq<Byte>, start: nat, end: nat, pending: nat, s: nat, n: nat)
    requires Current(src, d0, start, pending, s, n) && start <= end <= |src|
    requires Copied(d0, d1, src[start..end], start, end, pending, n)
    ensures Current(src, d1, end, pending, s, n)
  {
    forall b | 0 <= b < end && b < |src| && !InPendingPages(b, pending, s, n)
      ensures SameByte(src, d1, b)
    {
      assert b < start ==> SameByte(src, d0, b);
      var x := At(d1, b);
    }
  }

  /** A page that the loop passes over. */
  lemma CurrentBySkip(src: seq<Byte>, d: seq<Byte>, pending: nat, s: nat, n: nat)
    requires Current(src, d, pending, pending, s, n)
    ensures Current(src, d, pending + s, pending, s, n)
  {
  }

  /** The source was changed somewhere else, or grew: what was copied stays current when the bytes stay. */
  lemma CurrentByFrame(src: seq<Byte>, src1: seq<Byte>, d: seq<Byte>, upto: int, pending: nat, s: nat, n: nat)
    requires Current(src, d, upto, pending, s, n)
    requires forall b :: 0 <= b < upto && b < |src1| && !InPendingPages(b, pending, s, n) ==> At(src1, b) == At(src, b)
    ensures Current(src1, d, upto, pending, s, n)
  {
    forall b | 0 <= b < upto && b < |src1| && !InPendingPages(b, pending, s, n)
      ensures SameByte(src1, d, b)
    {
      assert SameByte(src, d, b);
    }
  }

  /** The destination has the bytes `[start, end)` of the source already. */
  ghost predicate There(src: seq<Byte>, d: seq<Byte>, start: int, end: int, pending: nat, s: nat, n: nat) {
    forall b :: start <= b < end && !InPendingPages(b, pending, s, n) ==> SameByte(src, d, b)
  }

  /** Copying a page of the source stopped at offset `e`. What comes before is current, the rest of the page is as
      it was, and the page is lost exactly when the destination did not have that rest before. */
  ghost predicate PageStopped(src: seq<Byte>, d0: seq<Byte>, d1: seq<Byte>, e: nat, start: int, end: int, pending: nat,
                              s: nat, n: nat) {
    start <= e < end && Current(src, d1, e, pending, s, n) && (forall b :: e <= b ==> At(d1, b) == At(d0, b)) &&
    (Current(src, d1, end, pending, s, n) <==> There(src, d0, e, end, pending, s, n))
  }

  lemma StoppedPage(src: seq<Byte>, d0: seq<Byte>, d1: seq<Byte>, e: nat, start: nat, end: nat, pending: nat, s: nat,
                    n: nat)
    requires Current(src, d0, start, pending, s, n) && end <= |src| && start <= end
    requires StoppedAt(d0, d1, src[start..end], e, start, end, pending, n)
    ensures PageStopped(src, d0, d1, e, start, end, pending, s, n)
  {
    CopiedStart(d0, d1, src, start, e, end, pending, n);
    CurrentByCopy(src, d0, d1, start, e, pending, s, n);
    forall b | e <= b
      ensures At(d1, b) == At(d0, b) && (SameByte(src, d1, b) <==> SameByte(src, d0, b))
    {
    }
    hide Copied;
    if There(src, d0, e, end, pending, s, n) {
      forall b | 0 <= b < end && b < |src| && !InPendingPages(b, pending, s, n)
        ensures SameByte(src, d1, b)
      {
        assert b >= e ==> SameByte(src, d0, b);
      }
    }
    if Current(src, d1, end, pending, s, n) {
      forall b | e <= b < end && !InPendingPages(b, pending, s, n)
        ensures SameByte(src, d0, b)
      {
        assert SameByte(src, d1, b);
      }
    }
  }

  lemma StoppedUnread(d: seq<Byte>, data: seq<Byte>, start: nat, end: nat, pending: nat, n: nat)
    requires start < end
    ensures StoppedAt(d, d, data, start, start, end, pending, n)
  {
  }

  lemma CopiedStart(d0: seq<Byte>, d1: seq<Byte>, src: seq<Byte>, start: nat, e: nat, end: nat, pending: nat, n: nat)
    requires start <= e <= end <= |src| && Copied(d0, d1, src[start..end], start, e, pending, n)
    ensures Copied(d0, d1, src[start..e], start, e, pending, n)
  {
  }

  /** The source wrote a page that was copied before, and the new content was copied too. */
  lemma CurrentByUpdate(src: seq<Byte>, d0: seq<Byte>, d1: seq<Byte>, data: seq<Byte>, start: nat, upto: int,
                        pending: nat, s: nat, n: nat)
    requires Current(src, d0, upto, pending, s, n) && start <= |src|
    requires Copied(d0, d1, data, start, start + |data|, pending, n)
    ensures Current(Written(src, start, data), d1, upto, pending, s, n)
  {
    var src1 := Written(src, start, data);
    hide Written;
    forall b | 0 <= b < upto && b < |src1| && !InPendingPages(b, pending, s, n)
      ensures SameByte(src1, d1, b)
    {
      WrittenAt(src, start, data, b);
      assert b < |src| ==> SameByte(src, d0, b);
      var x := At(d1, b);
    }
  }

  /** The source wrote past the part that was copied. */
  lemma CurrentByLater(src: seq<Byte>, d: seq<Byte>, data: seq<Byte>, start: nat, upto: int, pending: nat, s: nat,
                       n: nat)
    requires Current(src, d, upto, pending, s, n) && upto <= start <= |src|
    ensures Current(Written(src, start, data), d, upto, pending, s, n)
  {
    forall b | 0 <= b < upto
      ensures At(Written(src, start, data), b) == At(src, b)
    {
      WrittenAt(src, start, data, b);
    }
    CurrentByFrame(src, Written(src, start, data), d, upto, pending, s, n);
  }

  /** The source wrote a page; a page that was copied before was copied again. */
  lemma WriteKeeps(src: seq<Byte>, d0: seq<Byte>, d1: seq<Byte>, data: seq<Byte>, iPage: nat, iNext: nat, pending: nat,
                   s: nat, n: nat)
    requires 0 < iPage && 0 < iNext && |data| == s && 0 <= (iPage - 1) * s <= |src| && iPage * s == (iPage - 1) * s + s
    requires Current(src, d0, (iNext - 1) * s, pending, s, n)
    requires if iPage < iNext then Copied(d0, d1, data, (iPage - 1) * s, iPage * s, pending, n) else d1 == d0
    ensures Current(Written(src, (iPage - 1) * s, data), d1, (iNext - 1) * s, pending, s, n)
  {
    hide Current, Copied, Written;
    if iPage < iNext {
      CurrentByUpdate(src, d0, d1, data, (iPage - 1) * s, (iNext - 1) * s, pending, s, n);
    } else {
      MulMono(s, iNext - 1, iPage - 1);
      CurrentByLater(src, d0, data, (iPage - 1) * s, (iNext - 1) * s, pending, s, n);
    }
  }

  // -------------------- finishing --------------------

  /** The header fields that a commit stores. */
  function Patched(d: seq<Byte>, header: seq<Byte>): (e: seq<Byte>)
    ensures |e| == |d|
  {
    seq(|d|, i requires 0 <= i < |d| => if IsCommitField(i) && i < |header| then header[i] else d[i])
  }

  lemma PatchedOutside(d: seq<Byte>, header: seq<Byte>)
    ensures forall b :: !IsCommitField(b) ==> At(Patched(d, header), b) == At(d, b)
  {
  }

  lemma CutKeeps(d: seq<Byte>, n: nat)
    ensures forall b :: b < n ==> At(Cut(d, n), b) == At(d, b)
  {
  }

  function Cut(d: seq<Byte>, n: nat): (e: seq<Byte>)
    ensures |e| == MinInt(|d|, n)
  {
    if |d| > n then d[..n] else d
  }

  /** Every byte of `image` is in the file, except in the source's pending-byte page and in the header fields
      of a commit. */
  ghost predicate Faithful(image: seq<Byte>, dest: seq<Byte>, pending: nat, s: nat) {
    forall b :: 0 <= b < |image| && !(pending <= b < pending + s) && !IsCommitField(b) ==> At(dest, b) == At(image, b)
  }

  /** The destination file is the source file, byte by byte and in length. */
  ghost predicate Mirrors(src: seq<Byte>, dest: seq<Byte>, pending: nat, s: nat) {
    Faithful(src, dest, pending, s) && |dest| <= |src| &&
    (!(pending <= |src| - 1 < pending + s) ==> |dest| == |src|)
  }

  /** What a finished backup leaves: the source, or a new database of one page where the source is empty. */
  ghost predicate Finished(src: seq<Byte>, newPage: seq<Byte>, dest: seq<Byte>, pending: nat, s: nat) {
    if |src| > 0 then Mirrors(src, dest, pending, s)
    else |dest| <= s && Faithful(newPage, dest, pending, s)
  }

  /** As Faithful, while the rest of the destination's pending-byte page is still to be written from `upto` on. */
  ghost predicate Filled(image: seq<Byte>, dest: seq<Byte>, upto: int, pending: nat, s: nat, n: nat) {
    forall b :: 0 <= b < |image| && !(pending <= b < pending + s) && !(upto <= b < pending + n) && !IsCommitField(b) ==>
                  At(dest, b) == At(image, b)
  }

  lemma FilledByCopy(src: seq<Byte>, d: seq<Byte>, pending: nat, s: nat, n: nat)
    requires Current(src, d, |src|, pending, s, n)
    ensures Filled(src, d, pending + s, pending, s, n)
  {
    forall b | 0 <= b < |src| && !(pending <= b < pending + s) && !(pending + s <= b < pending + n) && !IsCommitField(b)
      ensures At(d, b) == At(src, b)
    {
      assert SameByte(src, d, b);
    }
  }

  lemma FilledByNew(d: seq<Byte>, size: nat, newPage: seq<Byte>, pending: nat, s: nat, n: nat)
    ensures Filled(newPage, PageWritten(d, size, 0, newPage), pending + s, pending, s, n)
  {
    var e := PageWritten(d, size, 0, newPage);
    hide PageWritten;
    forall b | 0 <= b < |newPage|
      ensures At(e, b) == At(newPage, b)
    {
      PageWrittenAt(d, size, 0, newPage, b);
    }
  }

  lemma FilledByPatch(image: seq<Byte>, d: seq<Byte>, header: seq<Byte>, upto: int, pending: nat, s: nat, n: nat)
    requires Filled(image, d, upto, pending, s, n)
    ensures Filled(image, Patched(d, header), upto, pending, s, n)
  {
    forall b | 0 <= b < |image| && !(pending <= b < pending + s) && !(upto <= b < pending + n) && !IsCommitField(b)
      ensures At(Patched(d, header), b) == At(image, b)
    {
      assert At(d, b) == At(image, b);
    }
  }

  lemma FilledByWrite(image: seq<Byte>, d: seq<Byte>, iOff: nat, pending: nat, s: nat, n: nat)
    requires Filled(image, d, iOff, pending, s, n) && pending + s <= iOff && iOff + s <= |image|
    ensures Filled(image, Written(d, iOff, image[iOff..iOff + s]), iOff + s, pending, s, n)
  {
    var e := Written(d, iOff, image[iOff..iOff + s]);
    hide Written;
    forall b | 0 <= b < |image| && !(pending <= b < pending + s) && !(iOff + s <= b < pending + n) && !IsCommitField(b)
      ensures At(e, b) == At(image, b)
    {
      WrittenAt(d, iOff, image[iOff..iOff + s], b);
      assert !(iOff <= b < pending + n) ==> At(d, b) == At(image, b);
    }
  }

  lemma FilledByCut(image: seq<Byte>, d: seq<Byte>, k: nat, upto: int, pending: nat, s: nat, n: nat)
    requires Filled(image, d, upto, pending, s, n) && |image| <= k
    ensures Filled(image, Cut(d, k), upto, pending, s, n)
  {
    forall b | 0 <= b < |image| && !(pending <= b < pending + s) && !(upto <= b < pending + n) && !IsCommitField(b)
      ensures At(Cut(d, k), b) == At(image, b)
    {
      assert At(d, b) == At(image, b);
    }
  }

  lemma FinishedBy(src: seq<Byte>, newPage: seq<Byte>, d: seq<Byte>, upto: int, pending: nat, s: nat, n: nat)
    requires Filled(if |src| > 0 then src else newPage, d, upto, pending, s, n) && 0 < s && |src| % s == 0
    requires upto >= MinInt(pending + n, if |src| > 0 then |src| else s) && |newPage| <= s <= pending
    requires |d| <= if |src| > 0 then |src| else s
    requires |src| == 0 || 512 <= |src|
    ensures Finished(src, newPage, d, pending, s)
  {
    if |src| > 0 {
      assert At(d, |src| - 1) == At(src, |src| - 1) || pending <= |src| - 1 < pending + s;
    }
  }

  /** The pages that truncating the file to page `first` may destroy, as far as the file has them. */
  ghost predicate Journalled(d: seq<Byte>, first: int, pending: nat, n: nat, journalled: set<nat>) {
    forall b: nat :: b < |d| && 0 < n && first <= PageOf(b, n) != PageOf(pending, n) ==> PageOf(b, n) in journalled
  }

  /** Every byte of the old file is still there or can be restored, apart from the pending-byte page and the header
      fields of a commit. */
  ghost predicate Restorable(d0: seq<Byte>, d1: seq<Byte>, pending: nat, n: nat, journalled: set<nat>) {
    forall b: nat :: b < |d0| && 0 < n && PageOf(b, n) != PageOf(pending, n) && !IsCommitField(b) ==>
                       At(d1, b) == At(d0, b) || PageOf(b, n) in journalled
  }

  lemma RestorableByPatch(d: seq<Byte>, header: seq<Byte>, pending: nat, n: nat, journalled: set<nat>)
    ensures Restorable(d, d, pending, n, journalled) && Restorable(d, Patched(d, header), pending, n, journalled)
  {
    hide Patched, IsCommitField, PageOf;
    PatchedOutside(d, header);
  }

  lemma RestorableByRest(d0: seq<Byte>, d1: seq<Byte>, d2: seq<Byte>, pending: nat, n: nat, journalled: set<nat>)
    requires Restorable(d0, d1, pending, n, journalled) && |d0| <= |d1|
    requires forall b :: 0 <= b < |d1| && 0 < n && PageOf(b, n) != PageOf(pending, n) ==> At(d2, b) == At(d1, b)
    ensures Restorable(d0, d2, pending, n, journalled)
  {
    hide At, IsCommitField, PageOf;
  }

  lemma RestorableByCut(d0: seq<Byte>, d1: seq<Byte>, k: nat, first: nat, pending: nat, n: nat, journalled: set<nat>)
    requires Restorable(d0, d1, pending, n, journalled) && Journalled(d0, first, pending, n, journalled)
    requires forall b: nat :: k <= b && 0 < n ==> first <= PageOf(b, n)
    ensures Restorable(d0, Cut(d1, k), pending, n, journalled)
  {
    CutKeeps(d1, k);
    hide At, IsCommitField, PageOf, Cut;
  }

  /** The number of pages that the destination keeps. */
  function DestTruncate(nSrcPage: nat, s: nat, n: nat, pending: nat): int
    requires IsPageSize(s) && IsPageSize(n)
  {
    if s < n then
      var ratio := Ratio(s, n);
      var t := (nSrcPage + ratio - 1) / ratio;
      if t == PageOf(pending, n) then t - 1 else t
    else nSrcPage * Ratio(n, s)
  }

  lemma TruncateExact(nSrcPage: nat, s: nat, n: nat, pending: nat)
    requires IsPageSize(s) && IsPageSize(n) && n <= s
    ensures DestTruncate(nSrcPage, s, n, pending) >= 0
    ensures DestTruncate(nSrcPage, s, n, pending) * n == nSrcPage * s
  {
    var k := Ratio(n, s);
    assert nSrcPage * k * n == nSrcPage * (k * n);
  }

  lemma RoundedUp(x: nat, ratio: nat, s: nat, n: nat)
    requires 0 < x && 0 < ratio && 0 < s && n == ratio * s
    ensures var t := (x + ratio - 1) / ratio; 0 < t && n * (t - 1) < x * s <= n * t
  {
    var t, rest := (x + ratio - 1) / ratio, (x + ratio - 1) % ratio;
    assert x + ratio - 1 == ratio * t + rest;
    if t <= 0 { MulMono(ratio, t, 0); }
    assert ratio * (t - 1) == ratio * t - ratio;
    MulMono(s, x, ratio * t);
    MulMono(s, ratio * (t - 1) + 1, x);
    assert s * (ratio * t) == n * t;
    assert s * (ratio * (t - 1) + 1) == n * (t - 1) + s;
  }

  lemma QuotientAtLeast(b: nat, n: nat, m: int)
    requires 0 < n && n * m <= b
    ensures m <= b / n
  {
    if b / n < m { MulMono(n, b / n + 1, m); }
  }

  /** Rounding up keeps every byte of the source, except that the pending-byte page is left off the end. */
  lemma TruncateRounds(nSrcPage: nat, s: nat, n: nat, pending: nat)
    requires IsPageSize(s) && IsPageSize(n) && s < n && IsPendingByte(pending) && 0 < nSrcPage
    ensures var t, iSize := DestTruncate(nSrcPage, s, n, pending), nSrcPage * s;
            0 < t && n * (t - 1) < iSize &&
            (iSize <= n * t || (t == PageOf(pending, n) - 1 && pending <= iSize <= pending + n))
  {
    var ratio, iSize := Ratio(s, n), nSrcPage * s;
    SizeDivides(pending, n, LARGEST_PAGE);
    assert 0 < s < n <= pending;
    hide IsPageSize, IsPendingByte, Ratio;
    RoundedUp(nSrcPage, ratio, s, n);
    var t, q := (nSrcPage + ratio - 1) / ratio, pending / n;
    assert pending == n * q;
    if t == q + 1 {
      assert n * t == n * q + n && n * (t - 1) == n * q;
      assert n * (t - 2) == n * (t - 1) - n;
      if q <= 0 { MulMono(n, q, 0); }
    }
  }

  /** Every byte past the end of the source is on the last page kept or on a later one. */
  lemma TruncateFrom(nSrcPage: nat, s: nat, n: nat, pending: nat, b: nat)
    requires IsPageSize(s) && IsPageSize(n) && s < n && IsPendingByte(pending) && 0 < nSrcPage && nSrcPage * s <= b
    ensures DestTruncate(nSrcPage, s, n, pending) <= PageOf(b, n)
  {
    TruncateRounds(nSrcPage, s, n, pending);
    QuotientAtLeast(b, n, DestTruncate(nSrcPage, s, n, pending) - 1);
  }

  /** A destination page failed, and the copy stopped where it begins or the piece for it does. */
  ghost predicate DestFailed(d0: seq<Byte>, d1: seq<Byte>, data: seq<Byte>, start: nat, end: nat, pending: nat, n: nat,
                             io: Io, rc: Rc) {
    exists e: nat :: 0 < n && rc == io.getDest(PageOf(e, n)) && StoppedAt(d0, d1, data, e, start, end, pending, n)
  }

  lemma DestFails(d0: seq<Byte>, d1: seq<Byte>, data: seq<Byte>, e: nat, start: nat, end: nat, pending: nat, n: nat,
                  io: Io, rc: Rc)
    requires 0 < n && rc == io.getDest(PageOf(e, n)) && start <= e < end && |d1| <= MaxInt(|d0|, e)
    requires Copied(d0, d1, data, start, e, pending, n)
    ensures DestFailed(d0, d1, data, start, end, pending, n, io, rc)
  {
    hide Copied, PageOf;
    assert StoppedAt(d0, d1, data, e, start, end, pending, n);
  }

  /** One source page could not be copied: reading it failed, with `srcRc`, or a destination page did. */
  ghost predicate PageFailed(src: seq<Byte>, d0: seq<Byte>, d1: seq<Byte>, start: int, end: int, pending: nat, s: nat,
                             n: nat, srcRc: Rc, io: Io, rc: Rc) {
    if srcRc != OK then
      rc == srcRc && 0 <= start && d1 == d0 && PageStopped(src, d0, d1, start, start, end, pending, s, n)
    else
      exists e: nat :: 0 < n && rc == io.getDest(PageOf(e, n)) && PageStopped(src, d0, d1, e, start, end, pending, s, n)
  }

  lemma SrcPageFails(src: seq<Byte>, d: seq<Byte>, start: nat, end: nat, pending: nat, s: nat, n: nat, rc: Rc, io: Io)
    requires rc != OK && Current(src, d, start, pending, s, n) && start < end <= |src|
    ensures PageFailed(src, d, d, start, end, pending, s, n, rc, io, rc)
  {
    hide Current, StoppedAt, PageStopped, PageOf;
    StoppedUnread(d, src[start..end], start, end, pending, n);
    StoppedPage(src, d, d, start, start, end, pending, s, n);
  }

  lemma DestPageFails(src: seq<Byte>, d0: seq<Byte>, d1: seq<Byte>, start: nat, end: nat, pending: nat, s: nat, n: nat,
                      io: Io, rc: Rc)
    requires Current(src, d0, start, pending, s, n) && start <= end <= |src|
    requires DestFailed(d0, d1, src[start..end], start, end, pending, n, io, rc)
    ensures PageFailed(src, d0, d1, start, end, pending, s, n, OK, io, rc)
  {
    hide Current, StoppedAt, PageStopped, PageOf;
    var e: nat :| 0 < n && rc == io.getDest(PageOf(e, n)) &&
      StoppedAt(d0, d1, src[start..end], e, start, end, pending, n);
    StoppedPage(src, d0, d1, e, start, end, pending, s, n);
  }

  /** What happens to the backups of one source: a step of one of them; a write of the source pager, which reports
      its pages to all of them; a pending-byte page that the growing source passes over; and changes that are not
      reported, of which the pager hears in the end and restarts the backups. */
  datatype Event =
    | Stepped(i: nat, nPage: int, env: Env)
    | SourceWrites(iPage: nat, data: seq<Byte>, io: nat -> Io)
    | SourceSkipsPendingPage(data: seq<Byte>)
    | SourceShrinks(pages: nat)
    | SourceReplaced(bytes: seq<Byte>, pgsz: nat)

  /** No page answers BUSY or LOCKED, whichever backup it is for. */
  ghost predicate Answered(e: Event) {
    match e
    case Stepped(_, _, env) => Settled(env)
    case SourceWrites(_, _, io) => forall i :: NoTransient(io(i))
    case _ => true
  }

  class Backup {
    const pSrc: Pager
    const pDest: Pager
    const pending: nat
    var iNext: nat
    var rc: Rc
    var bDestLocked: bool
    var isAttached: bool
    var nRemaining: int
    var nPagecount: int

    ghost predicate Valid()
      reads this, pSrc, pDest
    {
      pSrc != pDest && IsPageSize(pSrc.pgsz) && IsPageSize(pDest.pgsz) && IsPendingByte(pending) &&
      |pSrc.bytes| % pSrc.pgsz == 0 && 1 <= iNext
    }

    /** sqlite3_backup_init(): nothing is copied yet. */
    constructor (pSrc: Pager, pDest: Pager, pending: nat)
      ensures this.pSrc == pSrc && this.pDest == pDest && this.pending == pending
      ensures iNext == 1 && rc == OK && !bDestLocked && !isAttached
    {
      this.pSrc, this.pDest, this.pending := pSrc, pDest, pending;
      iNext, rc, bDestLocked, isAttached := 1, OK, false, false;
      nRemaining, nPagecount := 0, 0;
    }

    /** One turn of the loop in backupOnePage(): the part of a source page that lies on one destination page. */
    method CopyChunk(iOff: nat, chunk: seq<Byte>, bUpdate: bool, io: Io) returns (rc: Answer)
      requires Valid() && |chunk| == MinInt(pSrc.pgsz, pDest.pgsz) && iOff % |chunk| == 0
      modifies pDest`bytes
      ensures Valid()
      ensures rc == OK ==>
                Copied(old(pDest.bytes), pDest.bytes, chunk, iOff, iOff + |chunk|, pending, pDest.pgsz)
      ensures rc == OK && iOff == 0 ==> HasSize(pDest.bytes, bUpdate, chunk, pSrc.PageCount())
      ensures rc == OK ==> |pDest.bytes| <= MaxInt(old(|pDest.bytes|), iOff + pDest.pgsz)
      ensures rc != OK ==> rc == io.getDest(PageOf(iOff, pDest.pgsz)) && pDest.bytes == old(pDest.bytes)
    {
      ghost var d0 := pDest.bytes;
      var n := pDest.pgsz;
      rc := OK;
      ChunkPlace(iOff, |chunk|, n, pending);
      assert 512 <= n && 512 <= |chunk| && |chunk| <= LARGEST_PAGE <= pending;
      hide IsPageSize, IsPendingByte, Copied, PageWritten, Put4, PageOf, PageEnd, SizeIs;
      PageEndBound(d0, iOff, n, chunk);
      var iDest := PageOf(iOff, n);
      if iDest == PageOf(pending, n) {
        ChunkSkipped(d0, chunk, iOff, pending, n);
        return;
      }
      rc := io.getDest(iDest);
      if rc == OK {
        pDest.PutPage(iOff, chunk);
        ChunkCopied(d0, chunk, iOff, PageEnd(iOff, n), pending, n);
        if iOff == 0 { SizeInPage(d0, PageEnd(iOff, n), chunk); }
        if iOff == 0 && !bUpdate {
          PutSize(chunk, d0);
        }
      }
    }

    /** Write the size of the source into page 1 of the destination. */
    method PutSize(ghost chunk: seq<Byte>, ghost d0: seq<Byte>)
      requires Valid() && 512 <= |chunk| && |chunk| <= pending &&
               Copied(d0, pDest.bytes, chunk, 0, |chunk|, pending, pDest.pgsz)
      modifies pDest`bytes
      ensures Valid() && Copied(d0, pDest.bytes, chunk, 0, |chunk|, pending, pDest.pgsz)
      ensures SizeIs(pDest.bytes, Put4(pSrc.PageCount()))
      ensures |pDest.bytes| <= MaxInt(old(|pDest.bytes|), pDest.pgsz)
    {
      ghost var d1 := pDest.bytes;
      var size := Put4(pSrc.PageCount());
      PageEndBound(d1, 28, pDest.pgsz, size);
      pDest.PutPage(28, size);
      SizeCopied(d0, d1, chunk, PageEnd(28, pDest.pgsz), pending, pDest.pgsz, size);
      SizeWritten(d1, PageEnd(28, pDest.pgsz), size);
    }

    /** One turn of the loop. */
    method CopyPiece(ghost d0: seq<Byte>, start: nat, iOff: nat, data: seq<Byte>, bUpdate: bool, io: Io,
                     ghost nPage: nat)
      returns (rc: Answer)
      requires Valid() && start <= iOff < start + pSrc.pgsz && start % pSrc.pgsz == 0 && nPage == pSrc.PageCount()
      requires PieceDone(d0, pDest.bytes, data, start, iOff, pSrc.pgsz, pDest.pgsz, pending, bUpdate, nPage)
      modifies pDest`bytes
      ensures Valid()
      ensures rc == OK ==>
                PieceDone(d0, pDest.bytes, data, start, iOff + pDest.pgsz, pSrc.pgsz, pDest.pgsz, pending, bUpdate,
                          nPage)
      ensures rc != OK ==> rc == io.getDest(PageOf(iOff, pDest.pgsz)) && pDest.bytes == old(pDest.bytes)
    {
      ghost var d1 := pDest.bytes;
      PieceParts(d0, d1, data, start, iOff, pSrc.pgsz, pDest.pgsz, pending, bUpdate, nPage);
      hide Copied, IsPageSize, IsPendingByte, HasSize, PageOf, PieceDone, Pager.PageCount;
      var chunk := data[iOff % pSrc.pgsz..iOff % pSrc.pgsz + MinInt(pSrc.pgsz, pDest.pgsz)];
      rc := CopyChunk(iOff, chunk, bUpdate, io);
      if rc == OK {
        PieceGrows(d0, d1, pDest.bytes, data, chunk, start, iOff, pSrc.pgsz, pDest.pgsz, pending, bUpdate, nPage);
      }
    }

    /** Copy one source page into the destination pages it lies on. */
    method BackupOnePage(iSrcPg: nat, data: seq<Byte>, bUpdate: bool, io: Io) returns (rc: Answer)
      requires Valid() && 0 < iSrcPg && |data| == pSrc.pgsz
      modifies pDest`bytes
      ensures Valid()
      ensures rc == OK ==>
                Copied(old(pDest.bytes), pDest.bytes, data, (iSrcPg - 1) * pSrc.pgsz, iSrcPg * pSrc.pgsz, pending,
                       pDest.pgsz)
      ensures rc == OK && iSrcPg == 1 ==> HasSize(pDest.bytes, bUpdate, data, pSrc.PageCount())
      ensures rc != OK ==>
                DestFailed(old(pDest.bytes), pDest.bytes, data, (iSrcPg - 1) * pSrc.pgsz, iSrcPg * pSrc.pgsz, pending,
                           pDest.pgsz, io, rc)
    {
      var nSrcPgsz, nDestPgsz := pSrc.pgsz, pDest.pgsz;
      ghost var nPage := pSrc.PageCount();
      var start, iEnd := (iSrcPg - 1) * nSrcPgsz, iSrcPg * nSrcPgsz;
      ghost var d0 := pDest.bytes;
      PieceStarts(d0, data, iSrcPg, nSrcPgsz, nDestPgsz, pending, bUpdate, nPage);
      hide DestFailed, PageOf, Copied, IsPageSize, IsPendingByte, HasSize, PieceDone, Pager.PageCount;
      var iOff := start;
      rc := OK;
      while rc == OK && iOff < iEnd
        invariant rc == OK && Valid() && start <= iOff
        invariant PieceDone(d0, pDest.bytes, data, start, iOff, nSrcPgsz, nDestPgsz, pending, bUpdate, nPage)
        decreases iEnd - iOff
      {
        rc := CopyPiece(d0, start, iOff, data, bUpdate, io, nPage);
        if rc != OK {
          PieceParts(d0, pDest.bytes, data, start, iOff, nSrcPgsz, nDestPgsz, pending, bUpdate, nPage);
          DestFails(d0, pDest.bytes, data, iOff, start, iEnd, pending, nDestPgsz, io, rc);
          return;
        }
        iOff := iOff + nDestPgsz;
      }
      PieceEnds(d0, pDest.bytes, data, start, iOff, nSrcPgsz, nDestPgsz, pending, bUpdate, nPage);
    }

    /** How many bytes of the source the loop over source pages has passed. */
    function Passed(): int
      reads this, pSrc
    {
      (iNext - 1) * pSrc.pgsz
    }

    /** Source page `iPg`, which exists, as a piece of the file. */
    lemma PageBytes(iPg: nat)
      requires Valid() && 0 < iPg <= pSrc.PageCount()
      ensures var s := pSrc.pgsz;
              0 <= (iPg - 1) * s && iPg * s == (iPg - 1) * s + s && iPg * s <= |pSrc.bytes| &&
              (iPg == PageOf(pending, s) ==> (iPg - 1) * s == pending)
    {
      var s := pSrc.pgsz;
      SizeDivides(pending, s, LARGEST_PAGE);
      assert 0 < s;
      hide IsPageSize, IsPendingByte;
      MulMono(s, iPg, |pSrc.bytes| / s);
      assert pending == s * (pending / s);
    }

    /** One turn of the loop in sqlite3_backup_step(). The page counts as passed even when it failed. */
    method CopyPage(io: Io) returns (rc: Answer)
      requires Valid() && iNext <= pSrc.PageCount()
      requires Current(pSrc.bytes, pDest.bytes, Passed(), pending, pSrc.pgsz, pDest.pgsz)
      modifies this`iNext, pDest`bytes
      ensures Valid() && iNext == old(iNext) + 1
      ensures rc == OK ==> Current(pSrc.bytes, pDest.bytes, Passed(), pending, pSrc.pgsz, pDest.pgsz)
      ensures rc == OK && old(iNext) == 1 && 1 != PageOf(pending, pSrc.pgsz) ==>
                SizeIs(pDest.bytes, Put4(pSrc.PageCount()))
      ensures rc != OK ==> old(iNext) != PageOf(pending, pSrc.pgsz)
      ensures old(iNext) != PageOf(pending, pSrc.pgsz) && io.getSrc(old(iNext)) != OK ==> rc == io.getSrc(old(iNext))
      ensures rc != OK ==>
                PageFailed(pSrc.bytes, old(pDest.bytes), pDest.bytes, old(Passed()), Passed(), pending, pSrc.pgsz,
                  pDest.pgsz, io.getSrc(old(iNext)), io, rc)
    {
      PageBytes(iNext);
      ghost var d0 := pDest.bytes;
      var s := pSrc.pgsz;
      assert 0 < s;
      hide IsPageSize, IsPendingByte, Current, Copied, DestFailed, PageFailed, PageOf;
      var start, end := (iNext - 1) * s, iNext * s;
      rc := OK;
      if iNext != PageOf(pending, s) {
        rc := io.getSrc(iNext);
        if rc == OK {
          rc := BackupOnePage(iNext, pSrc.bytes[start..end], false, io);
          if rc == OK {
            CurrentByCopy(pSrc.bytes, d0, pDest.bytes, start, end, pending, s, pDest.pgsz);
          } else {
            DestPageFails(pSrc.bytes, d0, pDest.bytes, start, end, pending, s, pDest.pgsz, io, rc);
          }
        } else {
          SrcPageFails(pSrc.bytes, d0, start, end, pending, s, pDest.pgsz, rc, io);
        }
      } else {
        CurrentBySkip(pSrc.bytes, d0, pending, s, pDest.pgsz);
      }
      iNext := iNext + 1;
    }

    /** The loop over source pages: at most `nPage` of them, or all that are left when it is negative. */
    method CopyPages(nPage: int, io: Io) returns (rc: Answer)
      requires Valid() && Current(pSrc.bytes, pDest.bytes, Passed(), pending, pSrc.pgsz, pDest.pgsz)
      modifies this`iNext, pDest`bytes
      ensures Valid() && old(iNext) <= iNext <= MaxInt(old(iNext), pSrc.PageCount() + 1)
      ensures 0 <= nPage ==> iNext <= old(iNext) + nPage
      ensures rc == OK ==> Current(pSrc.bytes, pDest.bytes, Passed(), pending, pSrc.pgsz, pDest.pgsz)
      ensures rc == OK ==> iNext > pSrc.PageCount() || (0 <= nPage && iNext == old(iNext) + nPage)
      ensures rc != OK ==> iNext > old(iNext) && (rc == io.getSrc(iNext - 1) || exists n: nat :: rc == io.getDest(n))
      ensures NoTransient(io) ==> !IsTransient(rc)
    {
      var ii := 0;
      rc := OK;
      while (nPage < 0 || ii < nPage) && iNext <= pSrc.PageCount() && rc == OK
        invariant Valid() && ii == iNext - old(iNext) && 0 <= ii && (0 <= nPage ==> ii <= nPage)
        invariant iNext <= MaxInt(old(iNext), pSrc.PageCount() + 1)
        invariant rc == OK ==> Current(pSrc.bytes, pDest.bytes, Passed(), pending, pSrc.pgsz, pDest.pgsz)
        invariant rc != OK ==> ii > 0 && (rc == io.getSrc(iNext - 1) || exists n: nat :: rc == io.getDest(n))
        decreases pSrc.PageCount() + 1 - iNext
      {
        rc := CopyPage(io);
        ii := ii + 1;
      }
    }

    /** Journal every page that truncating the file may destroy, so that the old content can be restored. */
    method JournalTail(nDestTruncate: nat, io: Io) returns (rc: Answer, ghost journalled: set<nat>)
      requires Valid()
      ensures rc == OK ==> Journalled(pDest.bytes, nDestTruncate, pending, pDest.pgsz, journalled)
      ensures rc != OK ==> exists n: nat :: rc == io.getDest(n)
    {
      var n := pDest.pgsz;
      assert 0 < n;
      hide IsPageSize, IsPendingByte;
      var nDstPage := (|pDest.bytes| + n - 1) / n;
      var iPg := nDestTruncate;
      rc, journalled := OK, {};
      while rc == OK && iPg <= nDstPage
        invariant nDestTruncate <= iPg
        invariant rc == OK ==> forall k: nat :: nDestTruncate <= k < iPg && k != PageOf(pending, n) ==> k in journalled
        invariant rc != OK ==> exists n: nat :: rc == io.getDest(n)
        decreases nDstPage - iPg
      {
        if iPg != PageOf(pending, n) {
          rc := io.getDest(iPg);
          if rc == OK { journalled := journalled + {iPg}; }
        }
        iPg := iPg + 1;
      }
      forall b: nat | b < |pDest.bytes|
        ensures PageOf(b, n) <= nDstPage
      {
        QuotientAtLeast(|pDest.bytes| + n - 1, n, b / n + 1);
      }
    }

    /** Write the source pages behind the source's pending-byte page that lie on the destination's
        pending-byte page straight into the file. */
    method WriteRest(ghost image: seq<Byte>, iSize: nat, io: Io) returns (rc: Answer)
      requires Valid() && pSrc.pgsz < pDest.pgsz
      requires if |pSrc.bytes| > 0 then image == pSrc.bytes && iSize == |pSrc.bytes| else |image| <= iSize == pSrc.pgsz
      requires Filled(image, pDest.bytes, pending + pSrc.pgsz, pending, pSrc.pgsz, pDest.pgsz)
      modifies pDest`bytes
      ensures Valid()
      ensures rc == OK ==>
                exists upto: int :: upto >= MinInt(pending + pDest.pgsz, iSize) &&
                  Filled(image, pDest.bytes, upto, pending, pSrc.pgsz, pDest.pgsz)
      ensures forall b :: 0 <= b < old(|pDest.bytes|) && PageOf(b, pDest.pgsz) != PageOf(pending, pDest.pgsz) ==>
                At(pDest.bytes, b) == At(old(pDest.bytes), b)
      ensures rc != OK ==> exists n: nat :: rc == io.getSrc(n) || rc == io.osWrite(n)
    {
      var s, n := pSrc.pgsz, pDest.pgsz;
      var iEnd := MinInt(pending + n, iSize);
      var iOff := pending + s;
      ghost var d0 := pDest.bytes;
      rc := OK;
      SizeDivides(pending, s, LARGEST_PAGE);
      SizeDivides(pending, n, LARGEST_PAGE);
      SizeDivides(n, s, n);
      SumDivides(pending, s, s);
      SumDivides(pending, n, s);
      assert 0 < s < n && n <= pending;
      hide IsPageSize, IsPendingByte, Filled, Written;
      while rc == OK && iOff < iEnd
        invariant Valid() && iOff % s == 0 && pending + s <= iOff
        invariant rc == OK ==> Filled(image, pDest.bytes, iOff, pending, s, n)
        invariant forall b :: 0 <= b < |d0| && !(pending <= b < pending + n) ==> At(pDest.bytes, b) == At(d0, b)
        invariant |d0| <= |pDest.bytes|
        invariant rc != OK ==> exists n: nat :: rc == io.getSrc(n) || rc == io.osWrite(n)
        decreases iEnd - iOff
      {
        var iSrcPg := PageOf(iOff, s);
        rc := io.getSrc(iSrcPg);
        if rc == OK {
          DifferenceDivides(|pSrc.bytes|, iOff, s);
          FitsWhole(|pSrc.bytes| - iOff, s);
          DifferenceDivides(pending + n, iOff, s);
          FitsWhole(pending + n - iOff, s);
          var zData := pSrc.bytes[iOff..iOff + s];
          rc := io.osWrite(iOff);
          if rc == OK {
            ghost var d := pDest.bytes;
            pDest.bytes := Written(pDest.bytes, iOff, zData);
            FilledByWrite(image, d, iOff, pending, s, n);
            forall b | 0 <= b < |d0| && !(pending <= b < pending + n)
              ensures At(pDest.bytes, b) == At(d0, b)
            {
              WrittenAt(d, iOff, zData, b);
            }
          }
        }
        SumDivides(iOff, s, s);
        iOff := iOff + s;
      }
      forall b | 0 <= b < |d0| && PageOf(b, n) != PageOf(pending, n)
        ensures At(pDest.bytes, b) == At(d0, b)
      {
        SamePage(pending, b, n);
      }
    }

    /** Finish a copy to larger pages, which ends inside a page. Only journalled pages and the pending-byte page
        change in the file, header fields apart. */
    method ShrinkFile(ghost image: seq<Byte>, nSrcPage: nat, env: Env) returns (rc: Answer, ghost journalled: set<nat>)
      requires Valid() && pSrc.pgsz < pDest.pgsz && nSrcPage == MaxInt(1, pSrc.PageCount())
      requires |env.newPage| <= 512 && image == if |pSrc.bytes| > 0 then pSrc.bytes else env.newPage
      requires Filled(image, pDest.bytes, pending + pSrc.pgsz, pending, pSrc.pgsz, pDest.pgsz)
      modifies pDest`bytes
      ensures Valid()
      ensures rc == OK ==> Finished(pSrc.bytes, env.newPage, pDest.bytes, pending, pSrc.pgsz)
      ensures rc != OK ==> Fails(env, rc)
      ensures Settled(env) ==> !IsTransient(rc)
      ensures rc == OK ==> env.finish(CommitOne) == OK && env.finish(Truncate) == OK && env.finish(Sync) == OK
      ensures Restorable(old(pDest.bytes), pDest.bytes, pending, pDest.pgsz, journalled)
    {
      var s, n := pSrc.pgsz, pDest.pgsz;
      ghost var d0 := pDest.bytes;
      var iSize := nSrcPage * s;
      assert iSize == MaxInt(s, |pSrc.bytes|) by { SourceSize(); }
      TruncateRounds(nSrcPage, s, n, pending);
      assert 512 <= s < n && n <= LARGEST_PAGE <= pending;
      var nDestTruncate := DestTruncate(nSrcPage, s, n, pending);
      forall b: nat | iSize <= b
        ensures nDestTruncate <= PageOf(b, n)
      {
        TruncateFrom(nSrcPage, s, n, pending, b);
      }
      hide IsPageSize, IsPendingByte, Filled, DestTruncate, PageOf, Finished, Patched, Cut, IsCommitField, At,
        Journalled, Restorable, Fails, Settled;
      FinishFails(env, CommitOne);
      rc, journalled := JournalTail(nDestTruncate, env.io);
      CopyingFails(env, rc);
      RestorableByPatch(d0, env.header, pending, n, journalled);
      if rc != OK { return; }
      rc := env.finish(CommitOne);
      if rc != OK { return; }
      pDest.bytes := Patched(pDest.bytes, env.header);
      FilledByPatch(image, d0, env.header, pending + s, pending, s, n);
      rc := CutToSource(image, iSize, nDestTruncate, env, d0, journalled);
    }

    /** The rest of the destination's pending-byte page is written, and the file is cut to the size of the source. */
    method CutToSource(ghost image: seq<Byte>, iSize: nat, ghost first: nat, env: Env, ghost d0: seq<Byte>,
                       ghost journalled: set<nat>)
      returns (rc: Answer)
      requires Valid() && pSrc.pgsz < pDest.pgsz && iSize == MaxInt(pSrc.pgsz, |pSrc.bytes|)
      requires |env.newPage| <= 512 && image == if |pSrc.bytes| > 0 then pSrc.bytes else env.newPage
      requires Filled(image, pDest.bytes, pending + pSrc.pgsz, pending, pSrc.pgsz, pDest.pgsz)
      requires Restorable(d0, pDest.bytes, pending, pDest.pgsz, journalled) && |d0| <= |pDest.bytes|
      requires Journalled(d0, first, pending, pDest.pgsz, journalled)
      requires forall b: nat :: iSize <= b && 0 < pDest.pgsz ==> first <= PageOf(b, pDest.pgsz)
      modifies pDest`bytes
      ensures Valid()
      ensures rc == OK ==> Finished(pSrc.bytes, env.newPage, pDest.bytes, pending, pSrc.pgsz)
      ensures rc != OK ==> Fails(env, rc)
      ensures Settled(env) ==> !IsTransient(rc)
      ensures rc == OK ==> env.finish(Truncate) == OK && env.finish(Sync) == OK
      ensures Restorable(d0, pDest.bytes, pending, pDest.pgsz, journalled)
    {
      var s, n := pSrc.pgsz, pDest.pgsz;
      assert 512 <= s < n && n <= LARGEST_PAGE <= pending;
      hide IsPageSize, IsPendingByte, Filled, PageOf, Finished, Cut, IsCommitField, At, Journalled, Restorable, Fails,
        Settled;
      ghost var d1 := pDest.bytes;
      FinishFails(env, Truncate);
      FinishFails(env, Sync);
      rc := WriteRest(image, iSize, env.io);
      CopyingFails(env, rc);
      RestorableByRest(d0, d1, pDest.bytes, pending, n, journalled);
      if rc != OK { return; }
      ghost var d2, upto :| d2 == pDest.bytes && upto >= MinInt(pending + n, iSize) &&
        Filled(image, d2, upto, pending, s, n);
      rc := env.finish(Truncate);
      if rc != OK { return; }
      pDest.bytes := Cut(pDest.bytes, iSize);
      FilledByCut(image, d2, iSize, upto, pending, s, n);
      FinishedBy(pSrc.bytes, env.newPage, pDest.bytes, upto, pending, s, n);
      RestorableByCut(d0, d2, iSize, first, pending, n, journalled);
      rc := env.finish(Sync);
    }

    lemma SourceSize()
      requires Valid()
      ensures MaxInt(1, pSrc.PageCount()) * pSrc.pgsz == MaxInt(pSrc.pgsz, |pSrc.bytes|)
    {
      var s := pSrc.pgsz;
      assert 0 < s;
      hide IsPageSize;
      assert |pSrc.bytes| == s * (|pSrc.bytes| / s);
      if |pSrc.bytes| > 0 {
        MulMono(s, 1, |pSrc.bytes| / s);
      }
    }

    /** The end of sqlite3_backup_step(), once every page is copied. */
    method Finish(env: Env) returns (rc: Rc)
      requires Valid() && |env.newPage| <= 512
      requires Current(pSrc.bytes, pDest.bytes, |pSrc.bytes|, pending, pSrc.pgsz, pDest.pgsz)
      modifies pDest`bytes
      ensures Valid() && rc != OK
      ensures rc == DONE ==> Finished(pSrc.bytes, env.newPage, pDest.bytes, pending, pSrc.pgsz)
      ensures rc != DONE ==> Fails(env, rc)
      ensures Settled(env) ==> !IsTransient(rc)
      ensures rc == DONE ==> Committed(env, pSrc.bytes == [], pSrc.pgsz < pDest.pgsz)
    {
      var s, n := pSrc.pgsz, pDest.pgsz;
      ghost var image := pSrc.bytes;
      var nSrcPage := pSrc.PageCount();
      SourceSize();
      FilledByCopy(image, pDest.bytes, pending, s, n);
      assert 512 <= s && s <= LARGEST_PAGE <= pending && 512 <= n;
      assert |pSrc.bytes| == 0 <==> nSrcPage == 0;
      hide IsPageSize, IsPendingByte, Filled, Current, DestTruncate, Finished, PageWritten, PageEnd, Patched, Cut;
      rc := DONE;
      if nSrcPage == 0 {
        rc := env.finish(NewDb);
        if rc == OK {
          ghost var d := pDest.bytes;
          pDest.PutPage(0, env.newPage);
          image := env.newPage;
          FilledByNew(d, PageEnd(0, n), image, pending, s, n);
        }
        nSrcPage := 1;
      }
      if rc == OK || rc == DONE {
        rc := env.finish(UpdateMeta);
        if rc == OK && env.wal {
          rc := env.finish(SetVersion);
        }
        if rc == OK {
          if s < n {
            ghost var journalled;
            rc, journalled := ShrinkFile(image, nSrcPage, env);
          } else {
            rc := CommitLarger(image, nSrcPage, env);
          }
          if rc == OK {
            rc := env.finish(CommitTwo);
            if rc == OK { rc := DONE; }
          }
        }
      }
    }

    /** Finish a copy to pages of the same size or smaller ones: the destination keeps whole pages. */
    method CommitLarger(ghost image: seq<Byte>, nSrcPage: nat, env: Env) returns (rc: Answer)
      requires Valid() && pDest.pgsz <= pSrc.pgsz && nSrcPage == MaxInt(1, pSrc.PageCount())
      requires |env.newPage| <= 512 && image == if |pSrc.bytes| > 0 then pSrc.bytes else env.newPage
      requires Filled(image, pDest.bytes, pending + pSrc.pgsz, pending, pSrc.pgsz, pDest.pgsz)
      modifies pDest`bytes
      ensures Valid()
      ensures rc == OK ==> Finished(pSrc.bytes, env.newPage, pDest.bytes, pending, pSrc.pgsz)
      ensures rc != OK ==> Fails(env, rc)
      ensures Settled(env) ==> !IsTransient(rc)
      ensures rc == OK ==> env.finish(CommitOne) == OK
    {
      var s, n := pSrc.pgsz, pDest.pgsz;
      ghost var d0 := pDest.bytes;
      SourceSize();
      TruncateExact(nSrcPage, s, n, pending);
      assert 512 <= n <= s <= LARGEST_PAGE <= pending;
      hide IsPageSize, IsPendingByte, Filled, DestTruncate, Finished, Patched, Cut;
      var nDestTruncate := DestTruncate(nSrcPage, s, n, pending);
      pDest.bytes := Cut(pDest.bytes, nDestTruncate * n);
      ghost var d1 := pDest.bytes;
      rc := env.finish(CommitOne);
      if rc == OK {
        pDest.bytes := Patched(pDest.bytes, env.header);
        FilledByCut(image, d0, nDestTruncate * n, pending + s, pending, s, n);
        FilledByPatch(image, d1, env.header, pending + s, pending, s, n);
        FinishedBy(pSrc.bytes, env.newPage, pDest.bytes, pending + s, pending, s, n);
      }
    }

    /** A page number below iNext is current in the destination, until the backup has ended; and only an attached
        backup that holds its lock has copied anything. */
    ghost predicate Inv()
      reads this, pSrc, pDest
    {
      Valid() && Keeps(pSrc.bytes, pSrc.pgsz)
    }

    /** The destination has what was copied of a source. */
    ghost predicate Keeps(src: seq<Byte>, s: nat)
      reads this, pDest
    {
      !IsFatalError(rc) ==>
        Current(src, pDest.bytes, (iNext - 1) * s, pending, s, pDest.pgsz) && (isAttached || iNext == 1) &&
        (bDestLocked || iNext == 1)
    }

    /** Opens both transactions. */
    method Prepare(env: Env) returns (r: Answer)
      requires Inv() && !IsFatalError(rc) && (env.newPgsz == pSrc.pgsz || env.newPgsz == pDest.pgsz)
      modifies this`bDestLocked, pDest`pgsz
      ensures Inv() && (r == OK ==> bDestLocked)
      ensures old(bDestLocked) ==> bDestLocked && pDest.pgsz == old(pDest.pgsz)
      ensures r == OK && (env.wal || env.memdb) ==> pSrc.pgsz == pDest.pgsz
      ensures GuardAnswer(env, old(bDestLocked), pSrc.pgsz, DestSize(env, old(bDestLocked), old(pDest.pgsz)), r)
      ensures r == OK ==> pDest.pgsz == DestSize(env, old(bDestLocked), old(pDest.pgsz))
    {
      ghost var locked, n0 := bDestLocked, pDest.pgsz;
      NothingCopied(pSrc.bytes, pDest.bytes, pending, pSrc.pgsz, env.newPgsz);
      assert iNext == 1 ==> (iNext - 1) * pSrc.pgsz == 0;
      hide IsPageSize, IsPendingByte, Current, GuardAnswer;
      r := if env.srcInWrite then BUSY else OK;
      if r == OK { r := env.beginSrc; }
      if !bDestLocked && r == OK {
        pDest.pgsz := env.newPgsz;
        if env.pgszNomem { r := NOMEM; }
      }
      if r == OK && !bDestLocked {
        r := env.beginDest;
        if r == OK { bDestLocked := true; }
      }
      if r == OK && (env.wal || env.memdb) && pSrc.pgsz != pDest.pgsz {
        r := READONLY;
      }
      GuardsAnswer(env, locked, pSrc.pgsz, DestSize(env, locked, n0), r);
    }

    /** Copies pages and counts what is left. */
    method Advance(nPage: int, io: Io) returns (r: Rc)
      requires Inv() && !IsFatalError(rc) && bDestLocked
      modifies this`iNext, this`isAttached, this`nRemaining, this`nPagecount, pDest`bytes
      ensures Valid() && (NoTransient(io) && r != DONE ==> !IsTransient(r) && (r == OK ==> Inv()))
      ensures r == DONE ==> Current(pSrc.bytes, pDest.bytes, |pSrc.bytes|, pending, pSrc.pgsz, pDest.pgsz)
      ensures r == OK ==> isAttached && 0 <= nPage && iNext == old(iNext) + nPage
      ensures r == OK || r == DONE ==> nPagecount == pSrc.PageCount() && nRemaining == nPagecount + 1 - iNext
      ensures (r == OK ==> 0 < nRemaining) && (r == DONE ==> nRemaining <= 0)
      ensures r == DONE ==> nPage < 0 || pSrc.PageCount() + 1 - old(iNext) <= nPage
      ensures r == OK ==> nPage < pSrc.PageCount() + 1 - old(iNext)
      ensures r != OK && r != DONE ==> exists n: nat :: r == io.getSrc(n) || r == io.getDest(n)
    {
      assert 0 < pSrc.pgsz;
      hide IsPageSize, IsPendingByte, Current, NoTransient, Pager.PageCount;
      var nSrcPage := pSrc.PageCount();
      r := CopyPages(nPage, io);
      if r == OK {
        nPagecount := nSrcPage;
        nRemaining := nSrcPage + 1 - iNext;
        if iNext > nSrcPage {
          AllPassed();
          r := DONE;
        } else {
          isAttached := true;
        }
      }
    }

    /** sqlite3_backup_step(). */
    method Step(nPage: int, env: Env) returns (r: Rc)
      requires Inv() && |env.newPage| <= 512 && (env.newPgsz == pSrc.pgsz || env.newPgsz == pDest.pgsz)
      modifies this`iNext, this`rc, this`bDestLocked, this`isAttached, this`nRemaining, this`nPagecount, pDest
      ensures Valid() && r == rc
      ensures Settled(env) ==> Inv()
      ensures IsFatalError(old(rc)) ==> r == old(rc) && pDest.bytes == old(pDest.bytes) && iNext == old(iNext)
      ensures r == DONE && !IsFatalError(old(rc)) ==> Finished(pSrc.bytes, env.newPage, pDest.bytes, pending, pSrc.pgsz)
      ensures r == OK ==> isAttached && bDestLocked && 0 <= nPage && iNext == old(iNext) + nPage
      ensures !IsFatalError(old(rc)) && (r == OK || r == DONE) ==>
                nPagecount == pSrc.PageCount() && nRemaining == nPagecount + 1 - iNext &&
                if r == OK then 0 < nRemaining else nRemaining <= 0
      ensures old(bDestLocked) ==> bDestLocked && pDest.pgsz == old(pDest.pgsz)
      ensures !IsFatalError(old(rc)) ==>
                StepAnswer(env, old(bDestLocked), pSrc.pgsz, DestSize(env, old(bDestLocked), old(pDest.pgsz)),
                           old(PagesLeft()), nPage, r)
      ensures !IsFatalError(old(rc)) && r == DONE ==> Committed(env, pSrc.bytes == [], pSrc.pgsz < pDest.pgsz)
    {
      hide IsPageSize, IsPendingByte, Current, Finished, Settled, GuardAnswer, StepAnswer, Fails, Committed;
      r := rc;
      if IsFatalError(r) { return; }
      ghost var s, n, locked, left := pSrc.pgsz, pDest.pgsz, bDestLocked, PagesLeft();
      ghost var g;
      r, g := TakeStep(nPage, env);
      AnswerIs(env, locked, s, DestSize(env, locked, n), left, nPage, g, r);
      r := Reported(r);
      rc := r;
    }

    /** How many pages of the source are still to be copied. */
    ghost function PagesLeft(): int
      reads this, pSrc
    {
      if pSrc.pgsz == 0 then 0 else pSrc.PageCount() + 1 - iNext
    }

    /** The calls of a step whose backup has not ended, up to the answer that is stored. */
    method TakeStep(nPage: int, env: Env) returns (r: Rc, ghost g: Answer)
      requires Inv() && !IsFatalError(rc) && |env.newPage| <= 512
      requires env.newPgsz == pSrc.pgsz || env.newPgsz == pDest.pgsz
      modifies this`iNext, this`bDestLocked, this`isAttached, this`nRemaining, this`nPagecount, pDest
      ensures Valid() && (Settled(env) && !IsFatalError(r) ==> Inv())
      ensures r == DONE ==> Finished(pSrc.bytes, env.newPage, pDest.bytes, pending, pSrc.pgsz)
      ensures r == OK ==> isAttached && bDestLocked && 0 <= nPage && iNext == old(iNext) + nPage
      ensures r == OK || r == DONE ==> nPagecount == pSrc.PageCount() && nRemaining == nPagecount + 1 - iNext
      ensures (r == OK ==> 0 < nRemaining) && (r == DONE ==> nRemaining <= 0)
      ensures old(bDestLocked) ==> bDestLocked && pDest.pgsz == old(pDest.pgsz)
      ensures GuardAnswer(env, old(bDestLocked), pSrc.pgsz, DestSize(env, old(bDestLocked), old(pDest.pgsz)), g)
      ensures if g != OK then r == g
              else r == (if nPage < 0 || old(PagesLeft()) <= nPage then DONE else OK) || Fails(env, r)
      ensures r == DONE ==> Committed(env, pSrc.bytes == [], pSrc.pgsz < pDest.pgsz)
    {
      assert 0 < pSrc.pgsz;
      hide IsPageSize, IsPendingByte, Current, Finished, NoTransient, Pager.PageCount, GuardAnswer, Fails, Committed;
      r := Prepare(env);
      g := r;
      if r == OK {
        r := Advance(nPage, env.io);
        CopyingFails(env, r);
        if r == DONE {
          r := Finish(env);
        }
      }
    }

    /** Past the last page, the whole source is current. */
    lemma AllPassed()
      requires Valid() && iNext > pSrc.PageCount()
      requires Current(pSrc.bytes, pDest.bytes, Passed(), pending, pSrc.pgsz, pDest.pgsz)
      ensures Current(pSrc.bytes, pDest.bytes, |pSrc.bytes|, pending, pSrc.pgsz, pDest.pgsz)
    {
      var s := pSrc.pgsz;
      assert 0 < s;
      hide IsPageSize;
      MulMono(s, |pSrc.bytes| / s, iNext - 1);
    }

    /** The source wrote a page: copy it again if it was copied before. */
    method BackupUpdate(iPage: nat, data: seq<Byte>, io: Io)
      requires Valid() && 0 < iPage && |data| == pSrc.pgsz
      modifies this`rc, pDest`bytes
      ensures Valid()
      ensures IsFatalError(old(rc)) || iPage >= iNext ==> rc == old(rc) && pDest.bytes == old(pDest.bytes)
      ensures NoTransient(io) && !IsFatalError(rc) && iPage < iNext ==>
                rc == old(rc) &&
                Copied(old(pDest.bytes), pDest.bytes, data, (iPage - 1) * pSrc.pgsz, iPage * pSrc.pgsz, pending,
                       pDest.pgsz)
      ensures rc != old(rc) ==> exists n: nat :: io.getDest(n) == rc
    {
      if !IsFatalError(rc) && iPage < iNext {
        hide IsPageSize, IsPendingByte, Copied;
        var rc1 := BackupOnePage(iPage, data, true, io);
        if rc1 != OK {
          rc := rc1;
        }
      }
    }

    /** Start again, after a change that was not reported. */
    method Restart()
      modifies this`iNext
      ensures iNext == 1
    {
      iNext := 1;
    }

    /** The source pager wrote a page, of the file or the next one, and reports it to an attached backup. */
    method Tell(ghost src0: seq<Byte>, iPage: nat, data: seq<Byte>, io: Io)
      requires Valid() && Keeps(src0, pSrc.pgsz) && 0 < iPage && |data| == pSrc.pgsz
      requires 0 <= (iPage - 1) * pSrc.pgsz <= |src0| && pSrc.bytes == Written(src0, (iPage - 1) * pSrc.pgsz, data)
      modifies this`rc, pDest`bytes
      ensures Valid() && (NoTransient(io) ==> Inv())
      ensures IsFatalError(old(rc)) ==> rc == old(rc) && pDest.bytes == old(pDest.bytes)
      ensures rc != DONE || old(rc) == DONE
    {
      hide IsPageSize, IsPendingByte, Current, Copied, NoTransient, Written;
      ghost var d0 := pDest.bytes;
      if isAttached {
        BackupUpdate(iPage, data, io);
      }
      if !IsFatalError(rc) && NoTransient(io) {
        assert iPage * pSrc.pgsz == (iPage - 1) * pSrc.pgsz + pSrc.pgsz;
        WriteKeeps(src0, d0, pDest.bytes, data, iPage, iNext, pending, pSrc.pgsz, pDest.pgsz);
      }
    }

    /** The bytes of the source are the same, as far as it has them, apart from its pending-byte page. */
    lemma StaysCurrent(src0: seq<Byte>)
      requires Valid() && Keeps(src0, pSrc.pgsz) && SameOutsidePending(src0, pSrc.bytes, pending, pSrc.pgsz)
      ensures Inv()
    {
      hide IsPageSize, IsPendingByte, Current;
      if !IsFatalError(rc) {
        CurrentByFrame(src0, pSrc.bytes, pDest.bytes, (iNext - 1) * pSrc.pgsz, pending, pSrc.pgsz, pDest.pgsz);
      }
    }
  }

  ghost predicate SameOutsidePending(src0: seq<Byte>, src: seq<Byte>, pending: nat, s: nat) {
    forall b :: 0 <= b < |src| && !(pending <= b < pending + s) ==> At(src, b) == At(src0, b)
  }

  // -------------------- all backups of one source --------------------

  ghost function Dests(bs: seq<Backup>): set<Pager> {
    set i | 0 <= i < |bs| :: bs[i].pDest
  }

  /** The backups have one source and a destination each. */
  ghost predicate Distinct(src: Pager, pending: nat, bs: seq<Backup>) {
    (forall i :: 0 <= i < |bs| ==> bs[i].pSrc == src && bs[i].pending == pending && bs[i].pDest != src) &&
    (forall i, j :: 0 <= i < j < |bs| ==> bs[i] != bs[j] && bs[i].pDest != bs[j].pDest)
  }

  ghost predicate SourceOk(src: Pager, pending: nat)
    reads src
  {
    IsPageSize(src.pgsz) && IsPendingByte(pending) && |src.bytes| % src.pgsz == 0
  }

  /** All of them keep their invariant. */
  ghost predicate Group(src: Pager, pending: nat, bs: seq<Backup>)
    reads src, bs, Dests(bs)
  {
    SourceOk(src, pending) && Distinct(src, pending, bs) && forall i :: 0 <= i < |bs| ==> bs[i].Inv()
  }

  /** A result code, and the file. */
  datatype Copy = Copy(rc: Rc, bytes: seq<Byte>)

  ghost function Copies(bs: seq<Backup>): (cs: seq<Copy>)
    reads bs, Dests(bs)
    ensures |cs| == |bs| && forall i :: 0 <= i < |bs| ==> cs[i] == Copy(bs[i].rc, bs[i].pDest.bytes)
  {
    seq(|bs|, i requires 0 <= i < |bs| reads bs, Dests(bs) => Copy(bs[i].rc, bs[i].pDest.bytes))
  }

  /** A source database at some moment: its bytes and its page size. */
  datatype Source = Source(bytes: seq<Byte>, pgsz: nat)

  /** The event is a step of backup `i` that ends it with this file, at a moment when the source is `src`. */
  ghost predicate EndsWith(e: Event, i: nat, dest: seq<Byte>, src: Source, pending: nat) {
    e.Stepped? && e.i == i && Finished(src.bytes, e.env.newPage, dest, pending, src.pgsz)
  }

  /** An ended backup stays as it is, and one that ends with DONE does so in a step of its own and has the source as
      it is now. */
  ghost predicate Follows(before: seq<Copy>, after: seq<Copy>, e: Event, src: Source, pending: nat) {
    |before| == |after| && forall i :: 0 <= i < |after| ==>
      if IsFatalError(before[i].rc) then after[i] == before[i]
      else after[i].rc == DONE ==> EndsWith(e, i, after[i].bytes, src, pending)
  }

  /** No backup ends with DONE. */
  ghost predicate AllUnspoilt(before: seq<Copy>, after: seq<Copy>) {
    |before| == |after| && forall i :: 0 <= i < |after| ==> Unspoilt(before[i], after[i])
  }

  /** A reported write has reached the first `k` backups; `src0` and `cs` are the source and the copies before it. */
  ghost predicate Told(src: Pager, pending: nat, bs: seq<Backup>, src0: seq<Byte>, cs: seq<Copy>, k: nat)
    reads src, bs, Dests(bs)
  {
    SourceOk(src, pending) && Distinct(src, pending, bs) && |cs| == |bs| &&
    forall i :: 0 <= i < |bs| ==>
      bs[i].Valid() &&
      if i < k then bs[i].Inv() && Unspoilt(cs[i], Copy(bs[i].rc, bs[i].pDest.bytes))
      else bs[i].Keeps(src0, src.pgsz) && Copy(bs[i].rc, bs[i].pDest.bytes) == cs[i]
  }

  ghost predicate Unspoilt(before: Copy, after: Copy) {
    if IsFatalError(before.rc) then after == before else after.rc != DONE
  }

  method TellOne(src: Pager, pending: nat, bs: seq<Backup>, ghost src0: seq<Byte>, ghost cs: seq<Copy>, k: nat,
                 b: Backup, iPage: nat, data: seq<Byte>, io: Io)
    requires Told(src, pending, bs, src0, cs, k) && k < |bs| && b == bs[k] && NoTransient(io)
    requires 0 < iPage && |data| == src.pgsz && 0 <= (iPage - 1) * src.pgsz <= |src0|
    requires src.bytes == Written(src0, (iPage - 1) * src.pgsz, data)
    modifies b`rc, b.pDest`bytes
    ensures Told(src, pending, bs, src0, cs, k + 1)
  {
    hide Current, Written, IsPageSize, IsPendingByte, NoTransient, Backup.Valid, Backup.Keeps;
    ghost var c := cs[k];
    b.Tell(src0, iPage, data, io);
    assert b.Inv() && Unspoilt(c, Copy(b.rc, b.pDest.bytes));
    hide Backup.Inv, Unspoilt;
  }

  /** The source pager writes a page and reports it to all backups. */
  method SourceWritten(src: Pager, pending: nat, bs: seq<Backup>, iPage: nat, data: seq<Byte>, io: nat -> Io)
    requires Group(src, pending, bs) && 0 < src.pgsz && 0 < iPage <= src.PageCount() + 1 && |data| == src.pgsz
    requires forall i :: NoTransient(io(i))
    modifies src`bytes, bs`rc, Dests(bs)`bytes
    ensures Group(src, pending, bs) && src.bytes == Written(old(src.bytes), (iPage - 1) * src.pgsz, data)
    ensures AllUnspoilt(old(Copies(bs)), Copies(bs))
  {
    ghost var src0, cs := src.bytes, Copies(bs);
    PageToWrite(src, pending, iPage);
    assert Distinct(src, pending, bs);
    hide Current, Written, IsPageSize, IsPendingByte, NoTransient, AllUnspoilt, Copies, Backup.Keeps, Pager.PageCount;
    src.bytes := Written(src.bytes, (iPage - 1) * src.pgsz, data);
    assert Told(src, pending, bs, src0, cs, 0);
    assert forall i :: 0 <= i < |bs| ==> bs[i].pDest in Dests(bs) && bs[i].pDest != src;
    hide Told, Backup.Inv, Distinct, Dests;
    for k := 0 to |bs|
      invariant src.bytes == Written(src0, (iPage - 1) * src.pgsz, data) && src.pgsz == old(src.pgsz)
      invariant Told(src, pending, bs, src0, cs, k)
    {
      TellOne(src, pending, bs, src0, cs, k, bs[k], iPage, data, io(k));
    }
    AllTold(src, pending, bs, src0, cs);
  }

  lemma AllTold(src: Pager, pending: nat, bs: seq<Backup>, src0: seq<Byte>, cs: seq<Copy>)
    requires Told(src, pending, bs, src0, cs, |bs|)
    ensures Group(src, pending, bs) && AllUnspoilt(cs, Copies(bs))
  {
    hide IsPageSize, IsPendingByte, Backup.Valid, Backup.Keeps, Backup.Inv;
  }

  lemma PageToWrite(src: Pager, pending: nat, iPage: nat)
    requires SourceOk(src, pending) && 0 < src.pgsz && 0 < iPage <= src.PageCount() + 1
    ensures var s, start := src.pgsz, (iPage - 1) * src.pgsz;
            0 <= start <= |src.bytes| && iPage * s == start + s && start % s == 0 && (start + s) % s == 0 &&
            (start + s > |src.bytes| ==> start == |src.bytes|)
  {
    var s := src.pgsz;
    hide IsPageSize;
    var start, q := (iPage - 1) * s, |src.bytes| / s;
    assert |src.bytes| == s * q;
    MulMono(s, iPage - 1, q);
    Multiple(iPage - 1, s);
    Multiple(iPage, s);
    if iPage <= q { MulMono(s, iPage, q); }
  }

  /** The source grows over its pending-byte page, which is not reported. */
  method SourceSkips(src: Pager, pending: nat, bs: seq<Backup>, data: seq<Byte>)
    requires Group(src, pending, bs) && 0 < src.pgsz && src.PageCount() + 1 == PageOf(pending, src.pgsz) &&
             |data| == src.pgsz
    modifies src`bytes
    ensures Group(src, pending, bs) && src.bytes == old(src.bytes) + data && Copies(bs) == old(Copies(bs))
  {
    ghost var src0 := src.bytes;
    PageToWrite(src, pending, src.PageCount() + 1);
    PendingIsNext(src, pending);
    src.bytes := src.bytes + data;
    AllStayCurrent(src, pending, bs, src0);
  }

  lemma PendingIsNext(src: Pager, pending: nat)
    requires SourceOk(src, pending) && 0 < src.pgsz && src.PageCount() + 1 == PageOf(pending, src.pgsz)
    ensures |src.bytes| == pending
  {
    var s := src.pgsz;
    SizeDivides(pending, s, LARGEST_PAGE);
    hide IsPageSize, IsPendingByte;
    assert |src.bytes| == s * (|src.bytes| / s) && pending == s * (pending / s);
  }

  lemma AllStayCurrent(src: Pager, pending: nat, bs: seq<Backup>, src0: seq<Byte>)
    requires SourceOk(src, pending) && Distinct(src, pending, bs) &&
             SameOutsidePending(src0, src.bytes, pending, src.pgsz)
    requires forall i :: 0 <= i < |bs| ==> bs[i].Valid() && bs[i].Keeps(src0, src.pgsz)
    ensures Group(src, pending, bs)
  {
    hide IsPageSize, IsPendingByte, Backup.Valid, Backup.Keeps, SameOutsidePending;
    forall i | 0 <= i < |bs|
      ensures bs[i].Inv()
    {
      bs[i].StaysCurrent(src0);
    }
  }

  /** The source file is truncated, which is not reported. */
  method SourceShrunk(src: Pager, pending: nat, bs: seq<Backup>, pages: nat)
    requires Group(src, pending, bs) && 0 < src.pgsz && pages <= src.PageCount()
    modifies src`bytes
    ensures Group(src, pending, bs) && pages * src.pgsz <= |old(src.bytes)| &&
            src.bytes == old(src.bytes)[..pages * src.pgsz]
    ensures Copies(bs) == old(Copies(bs))
  {
    ghost var src0 := src.bytes;
    PageToWrite(src, pending, pages + 1);
    src.bytes := src.bytes[..pages * src.pgsz];
    AllStayCurrent(src, pending, bs, src0);
  }

  /** Another process changed the source, in any way and even to pages of another size; the pager tells all attached
      backups to start again. */
  method SourceChanged(src: Pager, pending: nat, bs: seq<Backup>, bytes: seq<Byte>, pgsz: nat)
    requires Group(src, pending, bs) && IsPageSize(pgsz) && |bytes| % pgsz == 0
    modifies src, bs`iNext
    ensures Group(src, pending, bs) && src.bytes == bytes && src.pgsz == pgsz
    ensures forall i :: 0 <= i < |bs| ==> bs[i].iNext == if bs[i].isAttached then 1 else old(bs[i].iNext)
    ensures Copies(bs) == old(Copies(bs))
  {
    hide Current;
    src.bytes, src.pgsz := bytes, pgsz;
    hide IsPageSize, IsPendingByte;
    for k := 0 to |bs|
      invariant SourceOk(src, pending) && src.bytes == bytes && src.pgsz == pgsz
      invariant forall i :: 0 <= i < |bs| ==> bs[i].Valid()
      invariant forall i :: 0 <= i < |bs| ==> bs[i].iNext == if i < k && bs[i].isAttached then 1 else old(bs[i].iNext)
    {
      if bs[k].isAttached {
        bs[k].Restart();
      }
    }
    forall i | 0 <= i < |bs|
      ensures bs[i].Inv()
    {
      NothingCopied(src.bytes, bs[i].pDest.bytes, pending, pgsz, bs[i].pDest.pgsz);
    }
  }

  lemma NothingCopied(src: seq<Byte>, d: seq<Byte>, pending: nat, s: nat, n: nat)
    ensures Current(src, d, 0, pending, s, n)
  {
  }

  /** The event can happen now. */
  predicate Possible(src: Pager, pending: nat, bs: seq<Backup>, e: Event)
    requires 0 < src.pgsz
    reads src, bs, Dests(bs)
  {
    match e
    case Stepped(i, _, env) =>
      i < |bs| && |env.newPage| <= 512 && (env.newPgsz == src.pgsz || env.newPgsz == bs[i].pDest.pgsz)
    case SourceWrites(iPage, data, _) =>
      0 < iPage <= src.PageCount() + 1 && iPage != PageOf(pending, src.pgsz) && |data| == src.pgsz
    case SourceSkipsPendingPage(data) => src.PageCount() + 1 == PageOf(pending, src.pgsz) && |data| == src.pgsz
    case SourceShrinks(pages) => pages <= src.PageCount()
    case SourceReplaced(bytes, pgsz) => IsPageSize(pgsz) && |bytes| % pgsz == 0
  }

  /** One of the backups takes a step, and the others are as they were. */
  method StepOne(src: Pager, pending: nat, bs: seq<Backup>, k: nat, nPage: int, env: Env)
    requires Group(src, pending, bs) && k < |bs| && |env.newPage| <= 512 &&
             (env.newPgsz == src.pgsz || env.newPgsz == bs[k].pDest.pgsz)
    requires Settled(env)
    modifies bs, Dests(bs)
    ensures Group(src, pending, bs)
    ensures Follows(old(Copies(bs)), Copies(bs), Stepped(k, nPage, env), Source(src.bytes, src.pgsz), pending)
  {
    hide Finished, Current, IsPageSize, IsPendingByte, Settled, Backup.Valid, Backup.Keeps;
    var r := bs[k].Step(nPage, env);
  }

  /** One event. */
  method Happen(src: Pager, pending: nat, bs: seq<Backup>, e: Event)
    requires Group(src, pending, bs) && 0 < src.pgsz && Possible(src, pending, bs, e) && Answered(e)
    modifies src, bs, Dests(bs)
    ensures Group(src, pending, bs) && 0 < src.pgsz
    ensures Follows(old(Copies(bs)), Copies(bs), e, Source(src.bytes, src.pgsz), pending)
  {
    hide Finished, IsPendingByte, Settled, NoTransient, Backup.Inv, Distinct;
    match e {
      case Stepped(i, nPage, env) => StepOne(src, pending, bs, i, nPage, env);
      case SourceWrites(iPage, data, io) => SourceWritten(src, pending, bs, iPage, data, io);
      case SourceSkipsPendingPage(data) => SourceSkips(src, pending, bs, data);
      case SourceShrinks(pages) => SourceShrunk(src, pending, bs, pages);
      case SourceReplaced(bytes, pgsz) => SourceChanged(src, pending, bs, bytes, pgsz);
    }
  }

  /** The assumption that no page answers BUSY is needed: such a page counts as copied, and the backup goes on. */
  method BusyReadLosesPage() returns (b: Backup, rc: Answer)
    ensures b.Valid() && rc == BUSY && !IsFatalError(rc) && b.iNext == 2
    ensures !Current(b.pSrc.bytes, b.pDest.bytes, b.Passed(), b.pending, b.pSrc.pgsz, b.pDest.pgsz)
  {
    var src, dest := new Pager, new Pager;
    src.bytes, src.pgsz := seq(512, _ => 1), 512;
    dest.bytes, dest.pgsz := [], 512;
    b := new Backup(src, dest, LARGEST_PAGE);
    rc := b.CopyPage(Io(_ => BUSY, _ => OK, _ => OK));
    assert !SameByte(src.bytes, dest.bytes, 0);
  }

  /** Any interleaving of steps of any number of backups and of reported and unreported changes of their source, where
      an event that cannot happen is passed over: what is below iNext is current all along; an ended backup stays as
      it is; and one that ended with DONE holds the source of one single moment. */
  method Run(src: Pager, pending: nat, bs: seq<Backup>, events: seq<Event>) returns (ghost sources: seq<Source>)
    requires Group(src, pending, bs) && forall e :: e in events ==> Answered(e)
    modifies src, bs, Dests(bs)
    ensures Group(src, pending, bs) && |sources| == |events| + 1 && sources[|events|] == Source(src.bytes, src.pgsz)
    ensures Ended(old(Copies(bs)), Copies(bs), events, sources, pending)
  {
    assert 0 < src.pgsz;
    ghost var cs := Copies(bs);
    hide *;
    sources := [Source(src.bytes, src.pgsz)];
    EndedYet(cs, sources, pending);
    for i := 0 to |events|
      invariant Group(src, pending, bs) && 0 < src.pgsz
      invariant |sources| == i + 1 && sources[i] == Source(src.bytes, src.pgsz)
      invariant Ended(cs, Copies(bs), events[..i], sources, pending)
    {
      ghost var before := Copies(bs);
      if Possible(src, pending, bs, events[i]) {
        Happen(src, pending, bs, events[i]);
      } else {
        FollowsItself(before, events[i], Source(src.bytes, src.pgsz), pending);
      }
      EndedStays(cs, before, Copies(bs), events[..i], events[i], sources, Source(src.bytes, src.pgsz), pending);
      assert events[..i + 1] == events[..i] + [events[i]];
      sources := sources + [Source(src.bytes, src.pgsz)];
    }
    assert events[..|events|] == events;
  }

  /** The file is what one of the steps of backup `i` left, of the source as it was then. */
  ghost predicate Snapshot(events: seq<Event>, sources: seq<Source>, i: nat, dest: seq<Byte>, pending: nat) {
    exists k :: 0 <= k < |events| && k + 1 < |sources| && EndsWith(events[k], i, dest, sources[k + 1], pending)
  }

  /** What had ended is as it was, and what has ended with DONE is a snapshot. */
  ghost predicate Ended(first: seq<Copy>, now: seq<Copy>, events: seq<Event>, sources: seq<Source>, pending: nat) {
    |first| == |now| && |sources| == |events| + 1 && forall i :: 0 <= i < |now| ==>
      if IsFatalError(first[i].rc) then now[i] == first[i]
      else now[i].rc == DONE ==> Snapshot(events, sources, i, now[i].bytes, pending)
  }

  lemma EndedYet(cs: seq<Copy>, sources: seq<Source>, pending: nat)
    requires |sources| == 1
    ensures Ended(cs, cs, [], sources, pending)
  {
  }

  lemma FollowsItself(cs: seq<Copy>, e: Event, src: Source, pending: nat)
    ensures Follows(cs, cs, e, src, pending)
  {
  }

  lemma SnapshotStays(events: seq<Event>, e: Event, sources: seq<Source>, src: Source, i: nat, dest: seq<Byte>,
                      pending: nat)
    requires |sources| == |events| + 1
    requires EndsWith(e, i, dest, src, pending) || Snapshot(events, sources, i, dest, pending)
    ensures Snapshot(events + [e], sources + [src], i, dest, pending)
  {
    hide EndsWith;
    var es, all := events + [e], sources + [src];
    if Snapshot(events, sources, i, dest, pending) {
      var k :| 0 <= k < |events| && k + 1 < |sources| && EndsWith(events[k], i, dest, sources[k + 1], pending);
      assert es[k] == events[k] && all[k + 1] == sources[k + 1];
    } else {
      assert es[|events|] == e && all[|events| + 1] == src;
    }
  }

  lemma EndedStays(first: seq<Copy>, before: seq<Copy>, after: seq<Copy>, events: seq<Event>, e: Event,
                   sources: seq<Source>, src: Source, pending: nat)
    requires Ended(first, before, events, sources, pending) && Follows(before, after, e, src, pending)
    ensures Ended(first, after, events + [e], sources + [src], pending)
  {
    hide EndsWith, Snapshot;
    forall i | 0 <= i < |after| && !IsFatalError(first[i].rc) && after[i].rc == DONE
      ensures Snapshot(events + [e], sources + [src], i, after[i].bytes, pending)
    {
      SnapshotStays(events, e, sources, src, i, after[i].bytes, pending);
    }
  }
}
