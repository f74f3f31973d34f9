/** The kernel heap of `heap.c`: block headers and links kept in raw memory, refining `ChunkMap`.

    Memory is the heap's address range cut into 4 KiB chunks of 1024 32-bit words. A block header
    is the first five words of its first chunk; the headers of the later chunks of an allocated
    block are payload. One page beyond the heap (the kernel stack's) is part of the range. */
module KernelHeap {
  import opened ChunkMap
  import opened Words

  const START: nat := 0xC1000000
  const HEAP_MAX: nat := 0xC2BFFFFF
  const CHUNK_BYTES: nat := 4096
  const CHUNK_WORDS: nat := 1024
  const PAGE_BYTES: nat := CHUNK_BYTES * PAGE_CHUNKS
  const MAPPABLE: nat := MAX_CHUNKS + PAGE_CHUNKS
  const HEADER_BYTES: nat := 20

  // Word offsets of the header fields.
  const SIZE: nat := 0
  const IS_FREE: nat := 1
  const SPAN: nat := 2
  const PREV: nat := 3
  const NEXT: nat := 4
  const HEADER_WORDS: nat := 5

  type Memory = seq<seq<int>>

  ghost predicate Shaped(mem: Memory) {
    |mem| == MAPPABLE && forall c | 0 <= c < |mem| :: |mem[c]| == CHUNK_WORDS
  }

  function Addr(c: nat): nat {
    START + CHUNK_BYTES * c
  }

  function ChunkAt(p: nat): (c: nat)
    requires START <= p
  {
    (p - START) / CHUNK_BYTES
  }

  /** The pointer to the block at chunk `d` of a heap of `n` chunks: null at the end. */
  function Link(n: nat, d: nat): nat {
    if d == n then 0 else Addr(d)
  }

  function Put(mem: Memory, c: nat, field: nat, v: int): (r: Memory)
    requires c < |mem| && field < |mem[c]|
  {
    mem[c := mem[c][field := v]]
  }

  /** The header at chunk `c` describes the block that the chunk map has there, and both its links are right. */
  ghost predicate HeaderOk(mem: Memory, m: Chunks, c: nat)
    requires Shaped(mem) && c < |m| <= MAPPABLE
  {
    var e := c + Span(m[c]);
    && mem[c][IS_FREE] == (if m[c] == Free then 1 else 0)
    && mem[c][SPAN] == Span(m[c])
    && mem[c][NEXT] == Link(|m|, e)
    && (e < |m| ==> mem[e][PREV] == Addr(c))
  }

  ghost predicate Represents(mem: Memory, m: Chunks) {
    && Shaped(mem) && |m| <= MAPPABLE
    && (|m| > 0 ==> mem[0][PREV] == 0)
    && forall c: nat {:trigger HeaderOk(mem, m, c)} | c < |m| && m[c] != Body :: HeaderOk(mem, m, c)
  }

  /** Every payload word of every block that is live in `m` is the same in both memories. */
  ghost predicate SamePayloads(m: Chunks, mem: Memory, mem': Memory)
    requires Shaped(mem) && Shaped(mem') && |m| <= MAPPABLE
  {
    && (forall c: nat | c < |m| && m[c].Head? :: mem'[c][HEADER_WORDS..] == mem[c][HEADER_WORDS..])
    && (forall c: nat | c < |m| && m[c].Body? :: mem'[c] == mem[c])
  }

  // ----- growth -------------------------------------------------------------------

  /** A free unit block of a chain that ends before chunk `end`. */
  ghost predicate FreshHeader(mem: Memory, c: nat, end: nat)
    requires Shaped(mem) && c < end <= MAPPABLE
  {
    && mem[c][SIZE] == CHUNK_BYTES && mem[c][IS_FREE] == 1 && mem[c][SPAN] == 1
    && mem[c][PREV] == (if c == 0 then 0 else Addr(c - 1))
    && mem[c][NEXT] == Link(end, c + 1)
  }

  ghost predicate FreshChain(mem: Memory, first: nat, end: nat)
    requires Shaped(mem) && end <= MAPPABLE
  {
    forall c: nat | first <= c < end :: FreshHeader(mem, c, end)
  }

  lemma FreshChainExtends(mem: Memory, mem': Memory, first: nat, end: nat)
    requires Shaped(mem) && Shaped(mem') && first <= end < MAPPABLE && FreshChain(mem, first, end)
    requires FreshHeader(mem', end, end + 1)
    requires first < end ==> mem'[end - 1] == mem[end - 1][NEXT := Addr(end)]
    requires forall c: nat | first <= c < end - 1 :: mem'[c] == mem[c]
    ensures FreshChain(mem', first, end + 1)
  {
    var end' := end + 1;
    forall c: nat | first <= c < end'
      ensures FreshHeader(mem', c, end')
    {
      if c < end { assert FreshHeader(mem, c, end); }
    }
  }

  ghost predicate FreshFrom(mem: Memory, n: nat, n': nat)
    requires Shaped(mem) && n' <= MAPPABLE
  {
    n < n' ==> FreshChain(mem, n, n')
  }

  /** What one growth does to memory: link the old last chunk to a chain of 1024 free unit blocks. */
  ghost predicate GrewBy(mem: Memory, mem': Memory, n: nat)
    requires Shaped(mem) && Shaped(mem') && n + PAGE_CHUNKS <= MAPPABLE
  {
    && (forall c: nat | c + 1 < n || n + PAGE_CHUNKS <= c < MAPPABLE :: mem'[c] == mem[c])
    && (0 < n ==> mem'[n - 1] == mem[n - 1][NEXT := Addr(n)])
    && FreshChain(mem', n, n + PAGE_CHUNKS)
  }

  lemma GrowthRepresents(mem: Memory, mem': Memory, m: Chunks)
    requires WellFormed(m) && LastFree(m) && |m| + PAGE_CHUNKS <= MAPPABLE
    requires Represents(mem, m) && Shaped(mem') && GrewBy(mem, mem', |m|)
    ensures Represents(mem', Grown(m))
  {
    var g := Grown(m);
    forall c: nat | c < |g| && g[c] != Body
      ensures HeaderOk(mem', g, c)
    {
      if c < |m| {
        assert HeaderOk(mem, m, c) && BlockOk(m, c);
        if c + 1 == |m| { assert FreshHeader(mem', |m|, |g|); }
      } else {
        assert FreshHeader(mem', c, |g|);
        if c + 1 < |g| { assert FreshHeader(mem', c + 1, |g|); }
      }
    }
    if |m| == 0 { assert FreshHeader(mem', 0, |g|); }
  }

  // ----- release --------------------------------------------------------------------

  /** What `_free` reads of a live block. */
  lemma FreePre(mem: Memory, m: Chunks, c: nat)
    requires Inv(m) && Represents(mem, m) && c < |m| && m[c].Head?
    ensures Shaped(mem) && |m| <= MAPPABLE && BlockOk(m, c) && 1 <= m[c].span && c + m[c].span < |m|
    ensures mem[c][SPAN] == m[c].span && mem[c][NEXT] == Addr(c + m[c].span)
  {
    assert HeaderOk(mem, m, c) && BlockOk(m, c);
  }

  /** What `_free` leaves of a block of `k` chunks at `c`: a chain of unit blocks spliced between its neighbours. */
  ghost predicate Exploded(mem: Memory, mem': Memory, c: nat, k: nat)
    requires Shaped(mem) && Shaped(mem') && 1 <= k && c + k < MAPPABLE
  {
    && (forall d: nat | d < c || c + k < d < MAPPABLE :: mem'[d] == mem[d])
    && mem'[c + k] == mem[c + k][PREV := Addr(c + k - 1)]
    && mem'[c][IS_FREE] == 1 && mem'[c][SPAN] == 1
    && mem'[c][PREV] == mem[c][PREV] && mem'[c][NEXT] == Addr(c + 1)
    && forall d: nat | c < d < c + k :: UnitHeader(mem', d)
  }

  ghost predicate UnitHeader(mem: Memory, d: nat)
    requires Shaped(mem) && 1 <= d < MAPPABLE
  {
    mem[d][IS_FREE] == 1 && mem[d][SPAN] == 1 && mem[d][PREV] == Addr(d - 1) && mem[d][NEXT] == Addr(d + 1)
  }

  lemma ExplodedHeader(mem: Memory, mem': Memory, m: Chunks, c: nat, d: nat)
    requires Shaped(mem) && Shaped(mem') && c < |m| <= MAPPABLE && m[c].Head?
    requires BlockOk(m, c) && c + m[c].span < |m| && Exploded(mem, mem', c, m[c].span) && c <= d < c + m[c].span
    ensures HeaderOk(mem', Release(m, c), d)
  {
    var k := m[c].span;
    if c < d { assert UnitHeader(mem', d); }
    if d + 1 < c + k { assert UnitHeader(mem', d + 1); }
    assert Release(m, c)[d] == Free;
  }

  lemma OtherHeader(mem: Memory, mem': Memory, m: Chunks, c: nat, d: nat)
    requires Shaped(mem) && Shaped(mem') && c < |m| <= MAPPABLE && m[c].Head?
    requires BlockOk(m, c) && c + m[c].span < |m| && Exploded(mem, mem', c, m[c].span)
    requires d < |m| && (d < c || c + m[c].span <= d) && m[d] != Body && HeaderOk(mem, m, d) && BlockOk(m, d)
    ensures HeaderOk(mem', Release(m, c), d)
  {
    assert Release(m, c)[d] == m[d];
  }

  lemma ExplodedRepresents(mem: Memory, mem': Memory, m: Chunks, c: nat)
    requires Inv(m) && Represents(mem, m) && c < |m| && m[c].Head? && Shaped(mem')
    requires BlockOk(m, c) && c + m[c].span < |m| && Exploded(mem, mem', c, m[c].span)
    ensures Represents(mem', Release(m, c))
    ensures SamePayloads(Release(m, c), mem, mem')
  {
    var r, k := Release(m, c), m[c].span;
    forall d: nat | d < |r| && r[d] != Body
      ensures HeaderOk(mem', r, d)
    {
      if d < c || c + k <= d {
        assert HeaderOk(mem, m, d) && BlockOk(m, d);
        OtherHeader(mem, mem', m, c, d);
      } else {
        ExplodedHeader(mem, mem', m, c, d);
      }
    }
    assert mem'[c + k][HEADER_WORDS..] == mem[c + k][HEADER_WORDS..];
  }

  lemma ReleaseStep(mem: Memory, mem': Memory, m: Chunks, c: nat)
    requires Inv(m) && Represents(mem, m) && c < |m| && m[c].Head? && Shaped(mem')
    requires BlockOk(m, c) && c + m[c].span < |m| && Exploded(mem, mem', c, m[c].span)
    ensures Inv(Release(m, c)) && Represents(mem', Release(m, c)) && |Release(m, c)| == |m|
    ensures SamePayloads(Release(m, c), mem, mem')
    ensures FreeCount(Release(m, c)) == FreeCount(m) + m[c].span
    ensures UsedCount(Release(m, c)) == UsedCount(m) - m[c].span
  {
    ExplodedRepresents(mem, mem', m, c);
    CountRelease(m, c);
    ReleaseInv(m, c);
  }

  // ----- fusing ---------------------------------------------------------------------

  /** A free unit block appended after the block at `c`; `first` is the first of those appended. */
  ghost predicate NewHeader(mem: Memory, d: nat, end: nat, first: nat, c: nat)
    requires Shaped(mem) && 0 < d < end <= MAPPABLE
  {
    && mem[d][IS_FREE] == 1 && mem[d][SPAN] == 1
    && mem[d][PREV] == Addr(if d == first then c else d - 1) && mem[d][NEXT] == Link(end, d + 1)
  }

  /** A fresh chain whose first block is preceded by the block at `c`. */
  lemma NewHeaders(grown: Memory, mem: Memory, c: nat, n: nat, n': nat)
    requires Shaped(grown) && Shaped(mem) && 0 < n <= n' <= MAPPABLE && FreshChain(grown, n, n')
    requires n < n' ==> mem[n] == grown[n][PREV := Addr(c)]
    requires forall d: nat | n < d < n' :: mem[d] == grown[d]
    ensures forall d: nat | n <= d < n' :: NewHeader(mem, d, n', n, c)
  {
    forall d: nat | n <= d < n'
      ensures NewHeader(mem, d, n', n, c)
    {
      assert FreshHeader(grown, d, n');
    }
  }

  /** What fusing `k` chunks at `c` leaves in memory; `n` and `n'` are the heap sizes before and after. */
  ghost predicate Fused(mem: Memory, mem': Memory, c: nat, k: nat, n: nat, n': nat)
    requires Shaped(mem) && Shaped(mem') && 1 <= k && c + k <= n <= n' <= MAPPABLE && c + k < n'
  {
    && (forall d: nat | d < c || c + k < d < n :: mem'[d] == mem[d])
    && (forall d: nat | n <= d < n' :: NewHeader(mem', d, n', n, c))
    && (c + k < n ==> mem'[c + k] == mem[c + k][PREV := Addr(c)])
    && mem'[c][IS_FREE] == 0 && mem'[c][SPAN] == k
    && mem'[c][PREV] == mem[c][PREV] && mem'[c][NEXT] == Addr(c + k)
  }

  lemma BesideFused(mem: Memory, mem': Memory, m: Chunks, c: nat, k: nat, d: nat)
    requires Shaped(mem) && Shaped(mem') && |m| <= MAPPABLE
    requires 1 <= k && RunAt(m, c, k) && |Finish(m, c, k)| <= MAPPABLE && Fused(mem, mem', c, k, |m|, |Finish(m, c, k)|)
    requires d < |m| && d != c && Finish(m, c, k)[d] == m[d] && m[d] != Body && HeaderOk(mem, m, d) && BlockOk(m, d)
    ensures HeaderOk(mem', Finish(m, c, k), d)
  {
    assert m[c] == Free;
    assert d < c ==> d + Span(m[d]) <= c;
    assert Finish(m, c, k)[d] == (if c < d < c + k then Body else m[d]);
  }

  lemma FusedHeader(mem: Memory, mem': Memory, m: Chunks, c: nat, k: nat, d: nat)
    requires Shaped(mem) && Shaped(mem') && |m| <= MAPPABLE
    requires 1 <= k && RunAt(m, c, k) && |Finish(m, c, k)| <= MAPPABLE && Fused(mem, mem', c, k, |m|, |Finish(m, c, k)|)
    requires d < |Finish(m, c, k)| && (d == c || |m| <= d)
    ensures HeaderOk(mem', Finish(m, c, k), d)
  {
    var p := Finish(m, c, k);
    if |m| <= d {
      if d + 1 < |p| { assert NewHeader(mem', d + 1, |p|, |m|, c); }
      assert NewHeader(mem', d, |p|, |m|, c);
    } else if |m| < |p| {
      assert NewHeader(mem', c + k, |p|, |m|, c);
    }
  }

  lemma FusedRepresents(mem: Memory, mem': Memory, m: Chunks, c: nat, k: nat)
    requires Inv(m) && Represents(mem, m) && Shaped(mem')
    requires 1 <= k && RunAt(m, c, k) && |Finish(m, c, k)| <= MAPPABLE
    requires Fused(mem, mem', c, k, |m|, |Finish(m, c, k)|)
    ensures Represents(mem', Finish(m, c, k))
  {
    var p := Finish(m, c, k);
    forall d: nat | d < |p| && p[d] != Body
      ensures HeaderOk(mem', p, d)
    {
      if d < |m| && d != c {
        assert p[d] == m[d];
        assert HeaderOk(mem, m, d) && BlockOk(m, d);
        BesideFused(mem, mem', m, c, k, d);
      } else {
        FusedHeader(mem, mem', m, c, k, d);
      }
    }
  }

  lemma FusedPayloads(mem: Memory, mem': Memory, m: Chunks, c: nat, k: nat)
    requires Inv(m) && Shaped(mem) && Shaped(mem') && |m| <= MAPPABLE
    requires 1 <= k && RunAt(m, c, k) && |Finish(m, c, k)| <= MAPPABLE
    requires Fused(mem, mem', c, k, |m|, |Finish(m, c, k)|)
    ensures SamePayloads(m, mem, mem')
  {
    if c + k < |m| {
      assert BlockOk(m, c + k - 1);
      assert mem'[c + k][HEADER_WORDS..] == mem[c + k][HEADER_WORDS..];
    }
  }

  lemma RunLinks(mem: Memory, m: Chunks, c: nat, k: nat)
    requires WellFormed(m) && Represents(mem, m) && RunAt(m, c, k)
    ensures forall d: nat | c <= d < c + k :: mem[d][NEXT] == Link(|m|, d + 1)
  {
    forall d: nat | c <= d < c + k
      ensures mem[d][NEXT] == Link(|m|, d + 1)
    {
      assert HeaderOk(mem, m, d);
    }
  }

  lemma FuseStep(mem: Memory, mem': Memory, m: Chunks, c: nat, k: nat)
    requires Inv(m) && Represents(mem, m) && Shaped(mem')
    requires 1 <= k && RunAt(m, c, k) && |Finish(m, c, k)| <= MAPPABLE
    requires Fused(mem, mem', c, k, |m|, |Finish(m, c, k)|)
    ensures Inv(Finish(m, c, k)) && Represents(mem', Finish(m, c, k)) && SamePayloads(m, mem, mem')
    ensures FreeCount(Finish(m, c, k)) == FreeCount(m) - k + |Finish(m, c, k)| - |m|
    ensures UsedCount(Finish(m, c, k)) == UsedCount(m) + k
  {
    FusedRepresents(mem, mem', m, c, k);
    FusedPayloads(mem, mem', m, c, k);
    FinishInv(m, c, k);
  }

  lemma GrowthStep(mem: Memory, mem': Memory, m: Chunks)
    requires Inv(m) && |m| + PAGE_CHUNKS <= MAPPABLE
    requires Represents(mem, m) && Shaped(mem') && GrewBy(mem, mem', |m|)
    ensures Inv(Grown(m)) && Represents(mem', Grown(m)) && SamePayloads(m, mem, mem')
    ensures FreeCount(Grown(m)) == FreeCount(m) + PAGE_CHUNKS && UsedCount(Grown(m)) == UsedCount(m)
  {
    hide WellFormed, HeaderOk, GrewBy, SamePayloads, FreeCount, UsedCount;
    GrowthRepresents(mem, mem', m);
    GrowthPayloads(mem, mem', m);
    GrownInv(m);
    CountGrown(m);
  }

  lemma GrowthPayloads(mem: Memory, mem': Memory, m: Chunks)
    requires Shaped(mem) && Shaped(mem') && LastFree(m) && |m| + PAGE_CHUNKS <= MAPPABLE && GrewBy(mem, mem', |m|)
    ensures SamePayloads(m, mem, mem')
  {
    hide FreshHeader;
  }

  // ----- requests -------------------------------------------------------------------

  /** The chunks a request needs, header included. */
  function ChunksFor(size: nat): (k: nat)
    ensures 1 <= k && (k - 1) * CHUNK_BYTES < size + HEADER_BYTES <= k * CHUNK_BYTES
  {
    (size + HEADER_BYTES + CHUNK_BYTES - 1) / CHUNK_BYTES
  }

  function Percent(free: nat, total: nat): (p: nat)
    requires 0 < total
    ensures p < 20 <==> free * 5 < total
  {
    PercentMeaning(free * 100, total);
    free * 100 / total
  }

  lemma PercentMeaning(f: nat, total: nat)
    requires 0 < total
    ensures f / total < 20 <==> f < 20 * total
  {
    var q, r := f / total, f % total;
    assert f == q * total + r;
    if q < 20 {
      assert q * total <= 19 * total;
    } else {
      assert q * total >= 20 * total;
    }
  }

  /** What the guard of `_malloc` guarantees to the rest of it. */
  lemma AcceptedRequest(m: Chunks, size: nat)
    requires Inv(m) && Addr(|m|) + size + HEADER_BYTES <= HEAP_MAX
    ensures var k := ChunksFor(size); var s := Settle(Base(m), k);
      && |m| + k <= MAX_CHUNKS && |m| + PAGE_CHUNKS <= MAX_CHUNKS
      && |s| <= |Allocate(m, k)| <= MAPPABLE && |Base(m)| <= |s|
  {
    var k := ChunksFor(size);
    GrowthBound(m, k);
    if GrowthDue(m) { GrownInv(m); }
    SettleAppends(Base(m), k);
  }

  /** The heap ends at `end` after a request for `k` chunks that was given the block at `p`. When a run was there
      already, it ends where it did if and only if at least a fifth of the chunks was free and a chunk was left behind
      the run, and one page later otherwise. When there was none, the block starts at the trailing free chunks, and
      the heap ends on the first page boundary behind it. */
  ghost predicate EndsAt(m: Chunks, k: nat, p: nat, end: nat) {
    if HasRun(m, k)
    then end == Addr(|m|) + if |m| <= 5 * FreeCount(m) && FirstRun(m, k, 0) + k < |m| then 0 else PAGE_BYTES
    else
      && p == Addr(|m| - Trailing(m)) && (end - START) % PAGE_BYTES == 0
      && p + CHUNK_BYTES * k < end <= p + CHUNK_BYTES * k + PAGE_BYTES
  }

  lemma NewEnd(m: Chunks, k: nat)
    requires Inv(m) && 1 <= k
    ensures EndsAt(m, k, Addr(Landing(m, k)), Addr(|Allocate(m, k)|))
  {
    hide Inv, Allocate, Landing, FirstRun, Trailing, FreeCount;
    AllocateLength(m, k);
  }

  lemma PayloadsCompose(m: Chunks, m1: Chunks, mem0: Memory, mem1: Memory, mem2: Memory)
    requires Shaped(mem0) && Shaped(mem1) && Shaped(mem2) && m <= m1 && |m1| <= MAPPABLE
    requires SamePayloads(m, mem0, mem1) && SamePayloads(m1, mem1, mem2)
    ensures SamePayloads(m, mem0, mem2)
  {
    forall c: nat | c < |m|
      ensures m[c] == m1[c]
    {
    }
  }

  /** A failed search is followed by a growth that keeps the settled map and stays below it. */
  lemma Retry(m: Chunks, k: nat)
    requires Inv(m) && 1 <= k && !HasRun(m, k)
    ensures Settle(m, k) == Settle(Grown(m), k) && |Grown(m)| <= |Settle(m, k)|
    ensures var s := Settle(m, k); |s| <= |Finish(s, FirstRun(s, k, 0), k)|
  {
    GrownInv(m);
    SettleAppends(Grown(m), k);
  }

  lemma Settled(m: Chunks, k: nat)
    requires Inv(m) && 1 <= k && HasRun(m, k)
    ensures Settle(m, k) == m && RunAt(m, FirstRun(m, k, 0), k)
  {
  }

  // ----- payload bytes ----------------------------------------------------------------

  function PayloadBytes(b: Cell): int
  {
    CHUNK_BYTES * Span(b) - HEADER_BYTES
  }

  /** The address lies in the modelled range. */
  predicate Mapped(a: nat) {
    START <= a < Addr(MAPPABLE)
  }

  function ByteAt(mem: Memory, a: nat): nat
    requires |mem| == MAPPABLE && (forall c | 0 <= c < |mem| :: |mem[c]| == CHUNK_WORDS) && Mapped(a)
  {
    GetByte(mem[(a - START) / CHUNK_BYTES][(a - START) % CHUNK_BYTES / 4], (a - START) % 4)
  }

  ghost predicate ByteStored(mem: Memory, mem': Memory, a: nat, v: nat)
    requires Shaped(mem) && Shaped(mem')
  {
    && Mapped(a) && ByteAt(mem', a) == v
    && forall b: nat | Mapped(b) && b != a :: ByteAt(mem', b) == ByteAt(mem, b)
  }

  ghost predicate Zeroed(mem: Memory, from: nat, end: nat)
    requires Shaped(mem)
  {
    forall a: nat | from <= a < end :: Mapped(a) && ByteAt(mem, a) == 0
  }

  ghost predicate SameOutside(mem: Memory, mem': Memory, c: nat, k: nat) {
    |mem| == |mem'| && forall d: nat | d < |mem| && !(c <= d < c + k) :: mem'[d] == mem[d]
  }

  lemma PutStores(mem: Memory, a: nat, v: nat)
    requires Shaped(mem) && Mapped(a) && v < 256
    ensures var o := a - START; var d, w := o / CHUNK_BYTES, o % CHUNK_BYTES / 4;
      && Shaped(Put(mem, d, w, PutByte(mem[d][w], o % 4, v)))
      && ByteStored(mem, Put(mem, d, w, PutByte(mem[d][w], o % 4, v)), a, v)
  {
    var o := a - START;
    var d, w := o / CHUNK_BYTES, o % CHUNK_BYTES / 4;
    var mem' := Put(mem, d, w, PutByte(mem[d][w], o % 4, v));
    forall b: nat | Mapped(b)
      ensures ByteAt(mem', b) == if b == a then v else ByteAt(mem, b)
    {
      var p := b - START;
      GetPut(mem[d][w], o % 4, v, p % 4);
      SameAddress(o, p);
    }
  }

  /** Chunk, word and byte number determine the offset. */
  lemma SameAddress(o: nat, p: nat)
    ensures o / CHUNK_BYTES == p / CHUNK_BYTES && o % CHUNK_BYTES / 4 == p % CHUNK_BYTES / 4 && o % 4 == p % 4 ==>
      o == p
  {
    WholeOffset(o);
    WholeOffset(p);
  }

  lemma WholeOffset(o: nat)
    ensures o == CHUNK_BYTES * (o / CHUNK_BYTES) + 4 * (o % CHUNK_BYTES / 4) + o % 4
  {
    var q, r := o / CHUNK_BYTES, o % CHUNK_BYTES;
    assert o == 4 * (1024 * q + r / 4) + r % 4;
    UniqueQuotient(4, 1024 * q + r / 4, r % 4, o / 4, o % 4);
  }

  /** Headers of blocks are all that the chunk map depends on. */
  lemma HeadersUntouched(mem: Memory, mem': Memory, m: Chunks)
    requires Represents(mem, m) && WellFormed(m) && Shaped(mem')
    requires forall d: nat | d < |m| && m[d] != Body :: mem'[d][..HEADER_WORDS] == mem[d][..HEADER_WORDS]
    ensures Represents(mem', m)
  {
    forall d: nat, f: nat | d < |m| && m[d] != Body && f < HEADER_WORDS
      ensures mem'[d][f] == mem[d][f]
    {
      assert mem'[d][f] == mem'[d][..HEADER_WORDS][f] == mem[d][..HEADER_WORDS][f] == mem[d][f];
    }
    forall c: nat | c < |m| && m[c] != Body
      ensures HeaderOk(mem', m, c)
    {
      assert HeaderOk(mem, m, c) && BlockOk(m, c);
    }
  }

  lemma StoreTarget(mem: Memory, m: Chunks, c: nat, i: nat, v: nat)
    requires WellFormed(m) && Represents(mem, m) && c < |m| && m[c].Head? && i < PayloadBytes(m[c]) && v < 256
    ensures var o := Addr(c) + HEADER_BYTES + i - START; var d, w := o / CHUNK_BYTES, o % CHUNK_BYTES / 4;
      && d < MAPPABLE && w < |mem[d]|
      && var mem' := Put(mem, d, w, PutByte(mem[d][w], o % 4, v));
         && Represents(mem', m) && ByteStored(mem, mem', Addr(c) + HEADER_BYTES + i, v)
         && SameOutside(mem, mem', c, m[c].span)
  {
    assert BlockOk(m, c);
    var a := Addr(c) + HEADER_BYTES + i;
    PutStores(mem, a, v);
    var o := a - START;
    var d, w := o / CHUNK_BYTES, o % CHUNK_BYTES / 4;
    var mem' := Put(mem, d, w, PutByte(mem[d][w], o % 4, v));
    assert c <= d < c + m[c].span && (d == c ==> HEADER_WORDS <= w);
    assert d == c ==> mem'[d][..HEADER_WORDS] == mem[d][..HEADER_WORDS];
    HeadersUntouched(mem, mem', m);
  }

  /** A new block takes only chunks that were free or not yet part of the heap. */
  lemma LandedOnFree(m: Chunks, k: nat)
    requires Inv(m) && 1 <= k
    ensures var a, c := Allocate(m, k), Landing(m, k);
      && c + k < |a| && a[c] == Head(k) && BlockOk(a, c)
      && forall d: nat | c <= d < c + k && d < |m| :: m[d] == Free
  {
    AllocateInv(m, k);
    SearchedMap(m, k);
    var s, c := Settle(Base(m), k), Landing(m, k);
    assert RunAt(s, c, k);
    assert forall d: nat | d < |m| :: s[d] == m[d];
    assert BlockOk(Allocate(m, k), c);
    hide Settle, Allocate, FirstRun, Landing, BlockOk, UsedCount;
  }

  lemma PayloadsOutside(m: Chunks, c: nat, k: nat, mem0: Memory, mem1: Memory, mem2: Memory)
    requires Shaped(mem0) && Shaped(mem1) && Shaped(mem2) && |m| <= MAPPABLE
    requires SamePayloads(m, mem0, mem1) && SameOutside(mem1, mem2, c, k)
    requires forall d: nat | c <= d < c + k && d < |m| :: m[d] == Free
    ensures SamePayloads(m, mem0, mem2)
  {
  }

  class Heap {
    var nextAddr: nat
    var lastBlock: nat
    var usedChunks: nat
    var freeChunks: nat
    var mem: Memory
    ghost var chunks: Chunks

    ghost predicate Valid()
      reads this
    {
      && Inv(chunks)
      && Represents(mem, chunks)
      && nextAddr == Addr(|chunks|)
      && lastBlock == (if |chunks| == 0 then 0 else Addr(|chunks| - 1))
      && freeChunks == FreeCount(chunks)
      && usedChunks == UsedCount(chunks)
    }

    /** `heap_init`, over memory with arbitrary contents. */
    constructor (memory: Memory)
      requires Shaped(memory)
      ensures Valid() && chunks == [] && mem == memory
    {
      nextAddr, lastBlock, usedChunks, freeChunks := START, 0, 0, 0;
      mem := memory;
      chunks := [];
    }

    /** `_init_heap_block` */
    method InitBlock(p: nat, size: nat, prev: nat)
      requires Shaped(mem) && START <= p && ChunkAt(p) < MAPPABLE
      modifies this`mem
      ensures Shaped(mem)
      ensures mem == old(mem)[ChunkAt(p) := mem[ChunkAt(p)]]
      ensures mem[ChunkAt(p)] == old(mem)[ChunkAt(p)][SPAN := 1][IS_FREE := 1][SIZE := size][PREV := prev][NEXT := 0]
    {
      var c := ChunkAt(p);
      mem := Put(mem, c, SPAN, 1);
      mem := Put(mem, c, IS_FREE, 1);
      mem := Put(mem, c, SIZE, size);
      mem := Put(mem, c, PREV, prev);
      mem := Put(mem, c, NEXT, 0);
    }

    /** The loop body of `_heap_grow`: one more unit block at the end of the chain. */
    method AppendUnit(block: nat, prev: nat, ghost first: nat, ghost end: nat)
      requires Shaped(mem) && first <= end < MAPPABLE && FreshChain(mem, first, end)
      requires block == Addr(end) && prev == (if end == 0 then 0 else Addr(end - 1))
      modifies this`mem
      ensures Shaped(mem) && FreshChain(mem, first, end + 1)
      ensures forall c: nat | c + 1 < end || end < c < MAPPABLE :: mem[c] == old(mem[c])
      ensures 0 < end ==> mem[end - 1] == old(mem[end - 1])[NEXT := block]
    {
      ghost var before := mem;
      InitBlock(block, CHUNK_BYTES, prev);
      if prev != 0 {
        mem := Put(mem, ChunkAt(prev), NEXT, block);
      }
      FreshChainExtends(before, mem, first, end);
    }

    /** `_heap_grow`. It only relies on the counters and `lastBlock`, because `_malloc` also calls it
        while a block is half fused. */
    method Grow(ghost n: nat)
      requires Shaped(mem) && n + PAGE_CHUNKS <= MAPPABLE
      requires nextAddr == Addr(n) && lastBlock == (if n == 0 then 0 else Addr(n - 1))
      modifies this`mem, this`nextAddr, this`lastBlock, this`freeChunks
      ensures Shaped(mem) && GrewBy(old(mem), mem, n)
      ensures nextAddr == Addr(n + PAGE_CHUNKS) && lastBlock == Addr(n + PAGE_CHUNKS - 1)
      ensures freeChunks == old(freeChunks) + PAGE_CHUNKS
    {
      hide FreshHeader;
      var virtAddr := nextAddr;
      if lastBlock != 0 {
        mem := Put(mem, ChunkAt(lastBlock), NEXT, virtAddr);
        mem := Put(mem, ChunkAt(virtAddr), PREV, lastBlock);
      }
      var prevBlock := lastBlock;
      var chunk := 0;
      while chunk < PAGE_CHUNKS
        invariant chunk <= PAGE_CHUNKS && Shaped(mem)
        invariant virtAddr == Addr(n + chunk)
        invariant prevBlock == (if n + chunk == 0 then 0 else Addr(n + chunk - 1))
        invariant forall c: nat | c + 1 < n || n + PAGE_CHUNKS <= c < MAPPABLE :: mem[c] == old(mem[c])
        invariant 0 < n ==> mem[n - 1] == old(mem[n - 1])[NEXT := Addr(n)]
        invariant FreshChain(mem, n, n + chunk)
        modifies this`mem
      {
        AppendUnit(virtAddr, prevBlock, n, n + chunk);
        prevBlock := virtAddr;
        chunk, virtAddr := chunk + 1, virtAddr + CHUNK_BYTES;
      }
      lastBlock := prevBlock;
      nextAddr := virtAddr;
      freeChunks := freeChunks + PAGE_CHUNKS;
    }

    /** The address of a live payload: one that an allocation returned and no release has taken back. */
    ghost predicate Live(ptr: nat)
      reads this
    {
      && START + HEADER_BYTES <= ptr
      && var c := ChunkAt(ptr - HEADER_BYTES);
         c < |chunks| && chunks[c].Head? && ptr == Addr(c) + HEADER_BYTES
    }

    /** The loop of `_free`: unit headers for the later chunks of a block, each linked to the one before. */
    method Chain(curr: nat, k: nat) returns (iter: nat)
      requires Shaped(mem) && START <= curr && curr == Addr(ChunkAt(curr)) && 1 <= k && ChunkAt(curr) + k < MAPPABLE
      modifies this`mem
      ensures Shaped(mem)
      ensures var c := ChunkAt(curr);
        && iter == Addr(c + k - 1)
        && (forall d: nat | d < c || c + k <= d < MAPPABLE :: mem[d] == old(mem[d]))
        && mem[c][..NEXT] == old(mem)[c][..NEXT]
        && (1 < k ==> mem[c][NEXT] == Addr(c + 1))
        && FreshChain(mem, c + 1, c + k)
    {
      ghost var c := ChunkAt(curr);
      iter := curr;
      var i := 1;
      while i < k
        invariant 1 <= i <= k && Shaped(mem)
        invariant iter == Addr(c + i - 1)
        invariant forall d: nat | d < c || c + k <= d < MAPPABLE :: mem[d] == old(mem[d])
        invariant mem[c][..NEXT] == old(mem)[c][..NEXT]
        invariant 1 < i ==> mem[c][NEXT] == Addr(c + 1)
        invariant FreshChain(mem, c + 1, c + i)
        modifies this`mem
      {
        ghost var before := mem;
        var block := iter + CHUNK_BYTES;
        InitBlock(block, CHUNK_BYTES, iter);
        mem := Put(mem, ChunkAt(iter), NEXT, block);
        FreshChainExtends(before, mem, c + 1, c + i);
        iter := block;
        i := i + 1;
      }
    }

    /** The header work of `_free`: the block at `curr` becomes a chain of unit blocks between its neighbours. */
    method Explode(curr: nat) returns (k: nat)
      requires Shaped(mem) && START <= curr && curr == Addr(ChunkAt(curr)) && ChunkAt(curr) < MAPPABLE
      requires var k := mem[ChunkAt(curr)][SPAN];
        1 <= k && ChunkAt(curr) + k < MAPPABLE && mem[ChunkAt(curr)][NEXT] == Addr(ChunkAt(curr) + k)
      modifies this`mem
      ensures k == old(mem)[ChunkAt(curr)][SPAN] && Shaped(mem) && Exploded(old(mem), mem, ChunkAt(curr), k)
    {
      ghost var c := ChunkAt(curr);
      mem := Put(mem, ChunkAt(curr), IS_FREE, 1);
      k := mem[ChunkAt(curr)][SPAN];
      var next := mem[ChunkAt(curr)][NEXT];
      mem := Put(mem, ChunkAt(curr), SPAN, 1);
      ghost var marked := mem;
      var iter := Chain(curr, k);
      ghost var chained := mem;
      assert mem[c][IS_FREE] == mem[c][..NEXT][IS_FREE] == marked[c][..NEXT][IS_FREE] == 1;
      assert mem[c][SPAN] == mem[c][..NEXT][SPAN] == marked[c][..NEXT][SPAN] == 1;
      assert mem[c][PREV] == mem[c][..NEXT][PREV] == marked[c][..NEXT][PREV] == old(mem)[c][PREV];
      mem := Put(mem, ChunkAt(iter), NEXT, next);
      if next != 0 {
        mem := Put(mem, ChunkAt(next), PREV, iter);
      }
      ChainEnds(chained, mem, c, k);
    }

    /** `_free` */
    method Free(ptr: nat)
      requires Valid() && (ptr == 0 || Live(ptr))
      modifies this`mem, this`freeChunks, this`usedChunks, this`chunks
      ensures Valid()
      ensures ptr == 0 ==> unchanged(this)
      ensures ptr != 0 ==>
        && BlockOk(old(chunks), ChunkAt(ptr - HEADER_BYTES))
        && chunks == Release(old(chunks), ChunkAt(ptr - HEADER_BYTES))
        && SamePayloads(chunks, old(mem), mem)
    {
      hide Release, BlockOk, HeaderOk, Represents, WellFormed, SamePayloads, FreeCount, UsedCount, Exploded, Inv;
      if ptr == 0 { return; }
      ghost var c, m, mem0 := ChunkAt(ptr - HEADER_BYTES), chunks, mem;
      FreePre(mem0, m, c);
      var k := Explode(ptr - HEADER_BYTES);
      ReleaseStep(mem0, mem, m, c);
      chunks := Release(m, c);
      freeChunks := freeChunks + k;
      usedChunks := usedChunks - k;
    }

    /** The scan of `_malloc`: the first block from which `k` free unit blocks follow one another. */
    method Search(k: nat) returns (found: bool, p: nat)
      requires Valid() && 1 <= k && 0 < |chunks|
      ensures found == HasRun(chunks, k)
      ensures found ==> p == Addr(FirstRun(chunks, k, 0))
    {
      var curr := START;
      ghost var n, c := |chunks|, 0;
      while curr != 0
        invariant c <= n && curr == Link(n, c) && (c < n ==> chunks[c] != Body)
        invariant forall t: nat | t < c :: !RunAt(chunks, t, k)
        decreases n - c
      {
        assert HeaderOk(mem, chunks, c) && BlockOk(chunks, c);
        if mem[ChunkAt(curr)][IS_FREE] != 0 {
          var start := curr;
          var free := 0;
          while curr != 0 && mem[ChunkAt(curr)][IS_FREE] != 0 && free < k
            invariant c + free <= n && free <= k && curr == Link(n, c + free)
            invariant RunAt(chunks, c, free)
            invariant c + free < n ==>
              && chunks[c + free] != Body && HeaderOk(mem, chunks, c + free) && BlockOk(chunks, c + free)
            decreases k - free
          {
            assert chunks[c + free] == Cell.Free;
            free := free + 1;
            curr := mem[ChunkAt(curr)][NEXT];
            assert c + free < n ==> HeaderOk(mem, chunks, c + free) && BlockOk(chunks, c + free);
          }
          if free == k {
            return true, start;
          }
          assert !RunAt(chunks, c, k);
          curr := mem[ChunkAt(start)][NEXT];
          c := c + 1;
        } else {
          curr := mem[ChunkAt(curr)][NEXT];
          assert forall t: nat | c <= t < c + Span(chunks[c]) && t < n ::
            chunks[t] != Cell.Free && !RunAt(chunks, t, k);
          c := c + Span(chunks[c]);
        }
      }
      return false, 0;
    }

    /** The marking loop of `_malloc`: the later chunks of the run are no longer free. Reaching the last
        chunk of the heap grows it on the way. Returns the block that follows the run. */
    method Mark(start: nat, k: nat, ghost n: nat) returns (block: nat)
      requires Shaped(mem) && START <= start && start == Addr(ChunkAt(start)) && 1 <= k
      requires var c := ChunkAt(start);
        && c + k <= n && n + (if c + k == n then PAGE_CHUNKS else 0) <= MAPPABLE
        && forall d: nat | c <= d < c + k :: mem[d][NEXT] == Link(n, d + 1)
      requires nextAddr == Addr(n) && lastBlock == Addr(n - 1)
      modifies this`mem, this`nextAddr, this`lastBlock, this`freeChunks
      ensures Shaped(mem)
      ensures var c := ChunkAt(start); var grew := 1 < k && c + k == n; var n' := if grew then n + PAGE_CHUNKS else n;
        && block == Link(n', c + k)
        && nextAddr == Addr(n') && lastBlock == Addr(n' - 1) && freeChunks == old(freeChunks) + n' - n
        && (forall d: nat | d <= c || c + k <= d < n :: mem[d] == old(mem[d]))
        && FreshFrom(mem, n, n')
    {
      ghost var c := ChunkAt(start);
      block := mem[ChunkAt(start)][NEXT];
      var i := 1;
      while i < k
        invariant 1 <= i <= k && Shaped(mem)
        invariant var n' := if 1 < k && i == k && c + k == n then n + PAGE_CHUNKS else n;
          && block == Link(n', c + i)
          && nextAddr == Addr(n') && lastBlock == Addr(n' - 1) && freeChunks == old(freeChunks) + n' - n
          && FreshFrom(mem, n, n')
        invariant forall d: nat | c + i <= d < c + k :: mem[d][NEXT] == Link(n, d + 1)
        invariant forall d: nat | d <= c || c + k <= d < n :: mem[d] == old(mem[d])
      {
        mem := Put(mem, ChunkAt(block), IS_FREE, 0);
        if mem[ChunkAt(block)][NEXT] == 0 {
          Grow(n);
        }
        block := mem[ChunkAt(block)][NEXT];
        i := i + 1;
      }
    }

    /** The header work of `_malloc` once a run is found: one block of `k` chunks, followed by a block. */
    method FuseHeaders(start: nat, k: nat, ghost n: nat, ghost n': nat)
      requires Shaped(mem) && START <= start && start == Addr(ChunkAt(start)) && 1 <= k
      requires var c := ChunkAt(start);
        && 0 < n && c + k <= n && n' == (if c + k == n then n + PAGE_CHUNKS else n) <= MAPPABLE
        && forall d: nat | c <= d < c + k :: mem[d][NEXT] == Link(n, d + 1)
      requires nextAddr == Addr(n) && lastBlock == Addr(n - 1)
      modifies this`mem, this`nextAddr, this`lastBlock, this`freeChunks
      ensures Shaped(mem) && Fused(old(mem), mem, ChunkAt(start), k, n, n')
      ensures nextAddr == Addr(n') && lastBlock == Addr(n' - 1) && freeChunks == old(freeChunks) + n' - n
    {
      ghost var c := ChunkAt(start);
      mem := Put(mem, ChunkAt(start), IS_FREE, 0);
      mem := Put(mem, ChunkAt(start), SPAN, k);
      var block := Mark(start, k, n);
      ghost var marked := mem;
      if block != 0 {
        mem := Put(mem, ChunkAt(block), PREV, start);
      }
      mem := Put(mem, ChunkAt(start), NEXT, block);
      if block == 0 {
        Grow(n);
        marked := mem;
        assert mem[n] == marked[n][PREV := Addr(c)] by { assert FreshHeader(mem, n, n'); }
      }
      if c + k == n {
        NewHeaders(marked, mem, c, n, n');
      }
    }

    /** Turns the run of `k` free chunks at `start` into one allocated block. */
    method Fuse(start: nat, k: nat)
      requires Valid() && START <= start && start == Addr(ChunkAt(start))
      requires 1 <= k && RunAt(chunks, ChunkAt(start), k) && |Finish(chunks, ChunkAt(start), k)| <= MAPPABLE
      modifies this
      ensures Valid()
      ensures chunks == Finish(old(chunks), ChunkAt(start), k)
      ensures SamePayloads(old(chunks), old(mem), mem)
    {
      ghost var m, mem0, c := chunks, mem, ChunkAt(start);
      ghost var p := Finish(m, c, k);
      RunLinks(mem0, m, c, k);
      FuseHeaders(start, k, |m|, |p|);
      FuseStep(mem0, mem, m, c, k);
      freeChunks := freeChunks - k;
      usedChunks := usedChunks + k;
      chunks := p;
    }

    /** A growth between two complete states. */
    method GrowPage()
      requires Valid() && |chunks| + PAGE_CHUNKS <= MAPPABLE
      modifies this
      ensures Valid() && chunks == Grown(old(chunks)) && usedChunks == old(usedChunks)
      ensures SamePayloads(old(chunks), old(mem), mem)
    {
      ghost var m, mem0 := chunks, mem;
      Grow(|m|);
      GrowthStep(mem0, mem, m);
      chunks := Grown(m);
    }

    /** The retry loop of `_malloc`: search, and grow until the search succeeds. */
    method Fit(k: nat) returns (p: nat)
      requires Valid() && 1 <= k && 0 < |chunks|
      requires var s := Settle(chunks, k); |Finish(s, FirstRun(s, k, 0), k)| <= MAPPABLE
      modifies this
      ensures Valid()
      ensures var s := Settle(old(chunks), k); var c := FirstRun(s, k, 0);
        chunks == Finish(s, c, k) && p == Addr(c)
      ensures SamePayloads(old(chunks), old(mem), mem)
    {
      hide Finish, Settle, HeaderOk, WellFormed;
      ghost var m, mem0 := chunks, mem;
      ghost var s := Settle(m, k);
      var found;
      found, p := Search(k);
      while !found
        invariant Valid() && 0 < |chunks| && Settle(chunks, k) == s
        invariant found == HasRun(chunks, k) && (found ==> p == Addr(FirstRun(chunks, k, 0)))
        invariant m <= chunks && SamePayloads(m, mem0, mem)
        decreases |s| - |chunks|
      {
        ghost var m1, mem1 := chunks, mem;
        Retry(m1, k);
        GrowPage();
        PayloadsCompose(m, m1, mem0, mem1, mem);
        found, p := Search(k);
      }
      Settled(chunks, k);
      ghost var m1, mem1 := chunks, mem;
      Fuse(p, k);
      PayloadsCompose(m, m1, mem0, mem1, mem);
    }

    /** The growth of `_malloc` before its search: the first page, or one when free chunks are scarce. */
    method GrowIfDue()
      requires Valid() && |chunks| + PAGE_CHUNKS <= MAPPABLE
      modifies this
      ensures Valid() && chunks == Base(old(chunks)) && old(chunks) <= chunks && 0 < |chunks|
      ensures SamePayloads(old(chunks), old(mem), mem)
    {
      hide HeaderOk, WellFormed, FreeCount, UsedCount;
      Conservation(chunks);
      var totalChunks := freeChunks + usedChunks;
      if totalChunks == 0 {
        GrowPage();
      } else if Percent(freeChunks, totalChunks) < 20 {
        GrowPage();
      }
    }

    /** `_malloc` (and `kmalloc`, which adds only a message on failure). */
    method Malloc(size: nat) returns (ptr: nat)
      requires Valid() && nextAddr + size + HEADER_BYTES < 0x1_0000_0000
      modifies this
      ensures Valid()
      ensures ptr == 0 <==> old(nextAddr) + size + HEADER_BYTES > HEAP_MAX
      ensures ptr == 0 ==> unchanged(this)
      ensures ptr != 0 ==>
        && chunks == Allocate(old(chunks), ChunksFor(size))
        && ptr == Addr(Landing(old(chunks), ChunksFor(size))) + HEADER_BYTES
        && ptr % CHUNK_BYTES == HEADER_BYTES
        && size <= PayloadBytes(Head(ChunksFor(size)))
        && SamePayloads(old(chunks), old(mem), mem)
      ensures ptr != 0 ==> EndsAt(old(chunks), ChunksFor(size), ptr - HEADER_BYTES, nextAddr)
    {
      hide Finish, Settle, HeaderOk, WellFormed, EndsAt, FirstRun, FreeCount, UsedCount, SamePayloads, Base;
      var total := size + HEADER_BYTES;
      if nextAddr + total > HEAP_MAX {
        return 0;
      }
      var k := (total + CHUNK_BYTES - 1) / CHUNK_BYTES;
      ghost var m, mem0 := chunks, mem;
      AcceptedRequest(m, size);
      NewEnd(m, k);
      GrowIfDue();
      ghost var m1, mem1 := chunks, mem;
      var p := Fit(k);
      PayloadsCompose(m, m1, mem0, mem1, mem);
      ptr := p + HEADER_BYTES;
    }

    /** A byte store by the owner of a live block, anywhere in its payload. */
    method Store(ptr: nat, i: nat, v: nat)
      requires Valid() && Live(ptr) && v < 256
      requires i < PayloadBytes(chunks[ChunkAt(ptr - HEADER_BYTES)])
      modifies this`mem
      ensures Valid() && ByteStored(old(mem), mem, ptr + i, v)
      ensures SameOutside(old(mem), mem, ChunkAt(ptr - HEADER_BYTES), chunks[ChunkAt(ptr - HEADER_BYTES)].span)
    {
      ghost var mem0, m, c := mem, chunks, ChunkAt(ptr - HEADER_BYTES);
      StoreTarget(mem0, m, c, i, v);
      var a := ptr + i - START;
      var d, w := a / CHUNK_BYTES, a % CHUNK_BYTES / 4;
      mem := Put(mem, d, w, PutByte(mem[d][w], a % 4, v));
    }

    /** `kzalloc`: an allocation whose first `size` bytes are cleared one by one. */
    method Zalloc(size: nat) returns (ptr: nat)
      requires Valid() && nextAddr + size + HEADER_BYTES < 0x1_0000_0000
      modifies this
      ensures Valid()
      ensures ptr == 0 <==> old(nextAddr) + size + HEADER_BYTES > HEAP_MAX
      ensures ptr == 0 ==> unchanged(this)
      ensures ptr != 0 ==>
        && chunks == Allocate(old(chunks), ChunksFor(size))
        && ptr == Addr(Landing(old(chunks), ChunksFor(size))) + HEADER_BYTES
        && ptr % CHUNK_BYTES == HEADER_BYTES
        && size <= PayloadBytes(Head(ChunksFor(size)))
        && Zeroed(mem, ptr, ptr + size)
        && SamePayloads(old(chunks), old(mem), mem)
        && EndsAt(old(chunks), ChunksFor(size), ptr - HEADER_BYTES, nextAddr)
    {
      hide Allocate, WellFormed, HeaderOk, Landing, EndsAt;
      ghost var m, mem0 := chunks, mem;
      ptr := Malloc(size);
      if ptr == 0 { return; }
      ghost var k, c, mem1 := ChunksFor(size), Landing(m, ChunksFor(size)), mem;
      LandedOnFree(m, k);
      assert Live(ptr);
      var i := 0;
      while i < size
        invariant i <= size && Valid() && Live(ptr) && SameOutside(mem1, mem, c, k)
        invariant Zeroed(mem, ptr, ptr + i)
        modifies this`mem
      {
        Store(ptr, i, 0);
        i := i + 1;
      }
      PayloadsOutside(m, c, k, mem0, mem1, mem);
    }
  }

  /** After the last link of the exploded chain is set, every unit block has both neighbours. */
  lemma ChainEnds(mem: Memory, mem': Memory, c: nat, k: nat)
    requires Shaped(mem) && Shaped(mem') && 1 <= k && c + k < MAPPABLE
    requires FreshChain(mem, c + 1, c + k)
    requires forall d: nat | c < d < c + k - 1 :: mem'[d] == mem[d]
    requires 1 < k ==> mem'[c + k - 1] == mem[c + k - 1][NEXT := Addr(c + k)]
    ensures forall d: nat | c < d < c + k :: UnitHeader(mem', d)
  {
    forall d: nat | c < d < c + k
      ensures UnitHeader(mem', d)
    {
      assert FreshHeader(mem, d, c + k);
    }
  }

  // ----- live payloads ----------------------------------------------------------------

  /** The payloads of two live blocks, and a live payload and any block header, occupy disjoint bytes. */
  lemma PayloadsDisjoint(m: Chunks, c: nat, d: nat)
    requires WellFormed(m) && c < |m| && m[c].Head? && d < |m| && m[d] != Body && c != d
    ensures Addr(c) + HEADER_BYTES + PayloadBytes(m[c]) <= Addr(d) || Addr(d) + CHUNK_BYTES * Span(m[d]) <= Addr(c)
    ensures Addr(c) + HEADER_BYTES + PayloadBytes(m[c]) <= Addr(|m|)
  {
    assert BlockOk(m, c) && BlockOk(m, d);
  }

  /** With 32-bit wrap-around, the guard of `_malloc` accepts exactly the requests that fit below the
      heap limit and those whose end address wraps; the latter are excluded by `Malloc`'s precondition. */
  lemma GuardUnderWrap(n: nat, size: nat)
    requires n < MAX_CHUNKS && size < 0x1_0000_0000
    ensures (Addr(n) + (size + HEADER_BYTES) % 0x1_0000_0000) % 0x1_0000_0000 <= HEAP_MAX
      <==> Addr(n) + size + HEADER_BYTES <= HEAP_MAX || 0x1_0000_0000 <= Addr(n) + size + HEADER_BYTES
  {
    var total := (size + HEADER_BYTES) % 0x1_0000_0000;
    if size + HEADER_BYTES < 0x1_0000_0000 {
      assert total == size + HEADER_BYTES;
      if 0x1_0000_0000 <= Addr(n) + total {
        assert (Addr(n) + total) % 0x1_0000_0000 == Addr(n) + total - 0x1_0000_0000;
      }
    } else {
      assert total == size + HEADER_BYTES - 0x1_0000_0000;
    }
  }

  // ----- runs -------------------------------------------------------------------------

  datatype Op = Request(size: nat) | GiveBack(c: nat)

  predicate Accepts(m: Chunks, size: nat) {
    Addr(|m|) + size + HEADER_BYTES <= HEAP_MAX
  }

  /** The effect of one call, as `Malloc` and `Free` establish it; giving back what is not a live block is not a
      call. */
  ghost function Step(m: Chunks, op: Op): Chunks
    requires Inv(m)
  {
    match op
    case Request(size) => if Accepts(m, size) then Allocate(m, ChunksFor(size)) else m
    case GiveBack(c) =>
      if c < |m| && m[c].Head? then assert BlockOk(m, c); Release(m, c) else m
  }

  lemma StepInv(m: Chunks, op: Op)
    requires Inv(m)
    ensures Inv(Step(m, op))
    ensures op.GiveBack? ==> |Step(m, op)| == |m|
    ensures |m| <= |Step(m, op)| && (|m| <= MAPPABLE ==> |Step(m, op)| <= MAPPABLE)
  {
    match op
    case Request(size) =>
      if Accepts(m, size) {
        AllocateInv(m, ChunksFor(size));
        AllocateRelease(m, ChunksFor(size));
        AcceptedRequest(m, size);
      }
    case GiveBack(c) =>
      if c < |m| && m[c].Head? { ReleaseInv(m, c); }
  }

  ghost function Run(m: Chunks, ops: seq<Op>): (r: Chunks)
    requires Inv(m)
    ensures Inv(r)
    decreases |ops|
  {
    if ops == [] then m
    else
      StepInv(m, ops[0]);
      Run(Step(m, ops[0]), ops[1..])
  }

  /** The first request that the guard accepts on the empty heap asks for all of it. */
  predicate FillsAtOnce(ops: seq<Op>) {
    if ops == [] then false
    else if ops[0].Request? && Accepts([], ops[0].size) then ChunksFor(ops[0].size) == MAX_CHUNKS
    else FillsAtOnce(ops[1..])
  }

  lemma StepBound(m: Chunks, op: Op)
    requires Inv(m) && 0 < |m|
    ensures Inv(Step(m, op)) && 0 < |Step(m, op)|
    ensures |m| <= MAX_CHUNKS <==> |Step(m, op)| <= MAX_CHUNKS
  {
    hide Allocate;
    StepInv(m, op);
    if op.Request? && Accepts(m, op.size) {
      AcceptedRequest(m, op.size);
      GrowthBound(m, ChunksFor(op.size));
    }
  }

  /** Once the heap has grown, no run takes it past its limit; once past it, it stays there. */
  lemma {:induction false} GrownRun(m: Chunks, ops: seq<Op>)
    requires Inv(m) && 0 < |m|
    ensures |m| <= MAX_CHUNKS <==> |Run(m, ops)| <= MAX_CHUNKS
    decreases |ops|
  {
    hide Step;
    if ops != [] {
      StepBound(m, ops[0]);
      GrownRun(Step(m, ops[0]), ops[1..]);
    }
  }

  lemma FirstAccepted(size: nat)
    requires Accepts([], size)
    ensures var m, k := Allocate([], ChunksFor(size)), ChunksFor(size);
      Inv(m) && 0 < |m| && (|m| <= MAX_CHUNKS <==> k != MAX_CHUNKS)
  {
    var k := ChunksFor(size);
    AcceptedRequest([], size);
    GrowthBound([], k);
    AllocateInv([], k);
  }

  lemma FirstStep(op: Op)
    ensures Inv([])
    ensures Step([], op) == if op.Request? && Accepts([], op.size) then Allocate([], ChunksFor(op.size)) else []
  {
    hide Allocate;
  }

  /** Over every sequence of allocations and releases, the heap stays below the kernel stack
      exactly when the first accepted request is not for all 7168 chunks. */
  lemma {:induction false} RunBound(ops: seq<Op>)
    ensures |Run([], ops)| <= MAX_CHUNKS <==> !FillsAtOnce(ops)
    decreases |ops|
  {
    hide Step, Inv, Accepts, Allocate, ChunksFor;
    if ops == [] {
      FirstStep(GiveBack(0));
    } else {
      FirstStep(ops[0]);
      if ops[0].Request? && Accepts([], ops[0].size) {
        FirstAccepted(ops[0].size);
        GrownRun(Step([], ops[0]), ops[1..]);
      } else {
        RunBound(ops[1..]);
      }
    }
  }
}
