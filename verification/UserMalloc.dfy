/** The user-space allocator of `malloc.c`: best fit over a free list, splitting, and coalescing
    on both sides. Every header store writes its bytes into the same memory as the payloads, `data`; `hdr` holds
    the header that was last stored at each address, and `Listed` says that the memory still holds those of the
    blocks. */
module UserMalloc {
  import opened Sequences
  import opened UserSpace
  import opened BlockLists

  const MIN_BLOCK: nat := 32
  const HEAP_BYTES: nat := 0x00400000
  const SIZE_MAX: nat := 0xFFFFFFFF
  /** Requests up to this size cannot wrap 32-bit arithmetic on sizes or heap addresses. */
  const MAX_REQUEST: nat := 0xFF000000

  function Align8(x: nat): (r: nat)
    ensures x <= r < x + 8 && r % 8 == 0
  {
    (x + 7) / 8 * 8
  }

  function Blocks(l: seq<nat>): set<nat> {
    set b | b in l
  }

  /** The blocks of `l` keep their free flag. */
  ghost predicate SameFlags(hdr: Headers, hdr': Headers, l: seq<nat>) {
    forall x | x in l && x in hdr :: x in hdr' && hdr'[x].free == hdr[x].free
  }

  /** The blocks of `l` other than `b` keep their size. */
  ghost predicate SameSizes(hdr: Headers, hdr': Headers, l: seq<nat>, b: nat) {
    forall x | x in l && x in hdr && x != b :: x in hdr' && hdr'[x].size == hdr[x].size
  }

  // ----- memory -----------------------------------------------------------------------

  // Byte offsets of the header fields.
  const SIZE: nat := 0
  const FREE: nat := 4
  const NEXT: nat := 8
  const PREV: nat := 12
  const NEXT_FREE: nat := 16
  const PREV_FREE: nat := 20

  /** The bytes of a 32-bit word, lowest first. */
  function Word(v: nat): (s: seq<int>)
    ensures |s| == 4
  {
    [v % 0x100, v / 0x100 % 0x100, v / 0x1_0000 % 0x100, v / 0x100_0000 % 0x100]
  }

  /** Little-endian: the bytes give back every 32-bit value. */
  lemma WordValue(v: nat)
    requires v < 0x1_0000_0000
    ensures var s := Word(v); v == s[0] + 0x100 * s[1] + 0x1_0000 * s[2] + 0x100_0000 * s[3]
  {
  }

  /** The memory with `v` stored at address `a`. */
  function Store(data: seq<int>, a: nat, v: nat): (r: seq<int>)
    ensures |r| == |data|
  {
    if HEAP_START <= a && a + 4 <= HEAP_START + |data|
    then data[..a - HEAP_START] + Word(v) + data[a + 4 - HEAP_START..] else data
  }

  /** The memory with a whole header stored at `x`. */
  function StoreHeader(data: seq<int>, x: nat, h: Header): (r: seq<int>)
    ensures |r| == |data|
  {
    var d1 := Store(Store(Store(data, x + SIZE, h.size), x + FREE, if h.free then 1 else 0), x + NEXT, h.next);
    Store(Store(Store(d1, x + PREV, h.prev), x + NEXT_FREE, h.nextFree), x + PREV_FREE, h.prevFree)
  }

  ghost predicate Outside(s: set<nat>, k: nat) {
    forall h | h in s :: !(h <= HEAP_START + k < h + HEADER)
  }

  /** Only bytes of headers at the addresses of `s` may differ. */
  ghost predicate OnlyAt(data: seq<int>, data': seq<int>, s: set<nat>) {
    |data'| == |data| && forall k: nat | k < |data| && Outside(s, k) :: data'[k] == data[k]
  }

  lemma StoreOnly(data0: seq<int>, data: seq<int>, s: set<nat>, x: nat, field: nat, v: nat)
    requires OnlyAt(data0, data, s) && x in s && field + 4 <= HEADER
    ensures OnlyAt(data0, Store(data, x + field, v), s)
  {
  }

  lemma HeaderOnly(data0: seq<int>, data: seq<int>, s: set<nat>, x: nat, h: Header)
    requires OnlyAt(data0, data, s) && x in s
    ensures OnlyAt(data0, StoreHeader(data, x, h), s)
  {
    hide OnlyAt, Store;
    var d1 := Store(data, x + SIZE, h.size);
    StoreOnly(data0, data, s, x, SIZE, h.size);
    var d2 := Store(d1, x + FREE, if h.free then 1 else 0);
    StoreOnly(data0, d1, s, x, FREE, if h.free then 1 else 0);
    var d3 := Store(d2, x + NEXT, h.next);
    StoreOnly(data0, d2, s, x, NEXT, h.next);
    var d4 := Store(d3, x + PREV, h.prev);
    StoreOnly(data0, d3, s, x, PREV, h.prev);
    var d5 := Store(d4, x + NEXT_FREE, h.nextFree);
    StoreOnly(data0, d4, s, x, NEXT_FREE, h.nextFree);
    StoreOnly(data0, d5, s, x, PREV_FREE, h.prevFree);
  }

  lemma StoreBoth(data: seq<int>, data': seq<int>, s: set<nat>, a: nat, v: nat)
    requires OnlyAt(data, data', s)
    ensures OnlyAt(Store(data, a, v), Store(data', a, v), s)
  {
  }

  lemma OnlyNothing(data: seq<int>, s: set<nat>)
    ensures OnlyAt(data, data, s)
  {
  }

  lemma OnlyTrans(data1: seq<int>, data2: seq<int>, data3: seq<int>, s1: set<nat>, s2: set<nat>, s: set<nat>)
    requires OnlyAt(data1, data2, s1) && OnlyAt(data2, data3, s2) && s1 <= s && s2 <= s
    ensures OnlyAt(data1, data3, s)
  {
    assert forall k: nat | Outside(s, k) :: Outside(s1, k) && Outside(s2, k);
  }

  ghost predicate WordAt(data: seq<int>, a: nat, v: nat) {
    HEAP_START <= a && a + 4 <= HEAP_START + |data| && data[a - HEAP_START..a + 4 - HEAP_START] == Word(v)
  }

  /** The 24 bytes at `x` are the header `h`. */
  ghost predicate HeaderAt(data: seq<int>, x: nat, h: Header) {
    && WordAt(data, x + SIZE, h.size) && WordAt(data, x + FREE, if h.free then 1 else 0)
    && WordAt(data, x + NEXT, h.next) && WordAt(data, x + PREV, h.prev)
    && WordAt(data, x + NEXT_FREE, h.nextFree) && WordAt(data, x + PREV_FREE, h.prevFree)
  }

  /** The memory holds the header of every address of `a`. */
  ghost predicate Backed(hdr: Headers, data: seq<int>, a: set<nat>) {
    && (forall x | x in a :: x in hdr)
    && forall x {:trigger HeaderAt(data, x, hdr[x])} | x in a :: HeaderAt(data, x, hdr[x])
  }

  /** Headers at the addresses of `a` do not overlap. */
  ghost predicate Spread(a: set<nat>) {
    forall x, y | x in a && y in a && x < y :: x + HEADER <= y
  }

  /** The header `h` with the word at offset `field` replaced. */
  function SetField(h: Header, field: nat, v: nat): Header {
    if field == SIZE then h.(size := v)
    else if field == FREE then h.(free := v != 0)
    else if field == NEXT then h.(next := v)
    else if field == PREV then h.(prev := v)
    else if field == NEXT_FREE then h.(nextFree := v)
    else h.(prevFree := v)
  }

  predicate IsField(field: nat, v: nat) {
    field in {SIZE, NEXT, PREV, NEXT_FREE, PREV_FREE} || (field == FREE && v <= 1)
  }

  lemma WordAfter(data: seq<int>, a: nat, v: nat, b: nat, w: nat)
    requires WordAt(data, a, v) && (a + 4 <= b || b + 4 <= a)
    ensures WordAt(Store(data, b, w), a, v)
  {
    var r, o := Store(data, b, w), a - HEAP_START;
    assert r[o..o + 4] == data[o..o + 4];
  }

  lemma WordStored(data: seq<int>, a: nat, v: nat)
    requires HEAP_START <= a && a + 4 <= HEAP_START + |data|
    ensures WordAt(Store(data, a, v), a, v)
  {
  }

  lemma HeaderAway(data: seq<int>, x: nat, h: Header, b: nat, w: nat)
    requires HeaderAt(data, x, h) && (x + HEADER <= b || b + 4 <= x)
    ensures HeaderAt(Store(data, b, w), x, h)
  {
    hide WordAt, Store;
    WordAfter(data, x + SIZE, h.size, b, w);
    WordAfter(data, x + FREE, if h.free then 1 else 0, b, w);
    WordAfter(data, x + NEXT, h.next, b, w);
    WordAfter(data, x + PREV, h.prev, b, w);
    WordAfter(data, x + NEXT_FREE, h.nextFree, b, w);
    WordAfter(data, x + PREV_FREE, h.prevFree, b, w);
  }

  lemma WordInside(data: seq<int>, a: nat, v: nat)
    requires WordAt(data, a, v)
    ensures HEAP_START <= a && a + 4 <= HEAP_START + |data|
  {
  }

  /** One field of a header stored. */
  lemma FieldStored(data: seq<int>, x: nat, h: Header, field: nat, v: nat)
    requires HeaderAt(data, x, h) && IsField(field, v)
    ensures HeaderAt(Store(data, x + field, v), x, SetField(h, field, v))
  {
    hide WordAt, Store;
    WordInside(data, x + SIZE, h.size);
    WordInside(data, x + PREV_FREE, h.prevFree);
    WordStored(data, x + field, v);
    if field != SIZE { WordAfter(data, x + SIZE, h.size, x + field, v); }
    if field != FREE { WordAfter(data, x + FREE, if h.free then 1 else 0, x + field, v); }
    if field != NEXT { WordAfter(data, x + NEXT, h.next, x + field, v); }
    if field != PREV { WordAfter(data, x + PREV, h.prev, x + field, v); }
    if field != NEXT_FREE { WordAfter(data, x + NEXT_FREE, h.nextFree, x + field, v); }
    if field != PREV_FREE { WordAfter(data, x + PREV_FREE, h.prevFree, x + field, v); }
  }

  /** Storing a field keeps the memory and the headers in step. */
  lemma StoreBacked(hdr: Headers, data: seq<int>, a: set<nat>, x: nat, field: nat, v: nat)
    requires Backed(hdr, data, a) && Spread(a) && x in a && x in hdr && IsField(field, v)
    ensures Backed(hdr[x := SetField(hdr[x], field, v)], Store(data, x + field, v), a)
  {
    hide HeaderAt, Store, SetField;
    forall y | y in a
      ensures y in hdr && HeaderAt(Store(data, x + field, v), y, hdr[x := SetField(hdr[x], field, v)][y])
    {
      if y == x {
        FieldStored(data, x, hdr[x], field, v);
      } else {
        HeaderAway(data, y, hdr[y], x + field, v);
      }
    }
  }

  lemma HeaderStored(data: seq<int>, x: nat, h: Header)
    requires HEAP_START <= x && x + HEADER <= HEAP_START + |data|
    ensures HeaderAt(StoreHeader(data, x, h), x, h)
  {
    hide WordAt, Store;
    var d1 := Store(data, x + SIZE, h.size);
    WordStored(data, x + SIZE, h.size);
    var d2 := Store(d1, x + FREE, if h.free then 1 else 0);
    WordStored(d1, x + FREE, if h.free then 1 else 0);
    WordAfter(d1, x + SIZE, h.size, x + FREE, if h.free then 1 else 0);
    var d3 := Store(d2, x + NEXT, h.next);
    WordStored(d2, x + NEXT, h.next);
    WordAfter(d2, x + SIZE, h.size, x + NEXT, h.next);
    WordAfter(d2, x + FREE, if h.free then 1 else 0, x + NEXT, h.next);
    LastWords(d3, x, h);
  }

  lemma LastWords(d3: seq<int>, x: nat, h: Header)
    requires HEAP_START <= x && x + HEADER <= HEAP_START + |d3|
    requires WordAt(d3, x + SIZE, h.size) && WordAt(d3, x + FREE, if h.free then 1 else 0)
    requires WordAt(d3, x + NEXT, h.next)
    ensures var d5 := Store(Store(d3, x + PREV, h.prev), x + NEXT_FREE, h.nextFree);
      HeaderAt(Store(d5, x + PREV_FREE, h.prevFree), x, h)
  {
    hide WordAt, Store;
    var d4 := Store(d3, x + PREV, h.prev);
    var d5 := Store(d4, x + NEXT_FREE, h.nextFree);
    FirstWords(d3, x, h, x + PREV, h.prev);
    FirstWords(d4, x, h, x + NEXT_FREE, h.nextFree);
    FirstWords(d5, x, h, x + PREV_FREE, h.prevFree);
    WordStored(d3, x + PREV, h.prev);
    WordStored(d4, x + NEXT_FREE, h.nextFree);
    WordStored(d5, x + PREV_FREE, h.prevFree);
    WordAfter(d4, x + PREV, h.prev, x + NEXT_FREE, h.nextFree);
    WordAfter(d5, x + PREV, h.prev, x + PREV_FREE, h.prevFree);
    WordAfter(d5, x + NEXT_FREE, h.nextFree, x + PREV_FREE, h.prevFree);
  }

  lemma FirstWords(data: seq<int>, x: nat, h: Header, b: nat, w: nat)
    requires WordAt(data, x + SIZE, h.size) && WordAt(data, x + FREE, if h.free then 1 else 0)
    requires WordAt(data, x + NEXT, h.next)
    requires x + PREV <= b
    ensures var r := Store(data, b, w);
      WordAt(r, x + SIZE, h.size) && WordAt(r, x + FREE, if h.free then 1 else 0) && WordAt(r, x + NEXT, h.next)
  {
    hide WordAt, Store;
    WordAfter(data, x + SIZE, h.size, b, w);
    WordAfter(data, x + FREE, if h.free then 1 else 0, b, w);
    WordAfter(data, x + NEXT, h.next, b, w);
  }

  /** A byte of a header depends on nothing outside it. */
  lemma HeaderSame(data: seq<int>, data': seq<int>, x: nat, h: Header)
    requires HeaderAt(data, x, h) && |data'| == |data|
    requires forall k: nat | k < |data| && x <= HEAP_START + k < x + HEADER :: data'[k] == data[k]
    ensures HeaderAt(data', x, h)
  {
    hide WordAt;
    WordSame(data, data', x, x + SIZE, h.size);
    WordSame(data, data', x, x + FREE, if h.free then 1 else 0);
    WordSame(data, data', x, x + NEXT, h.next);
    WordSame(data, data', x, x + PREV, h.prev);
    WordSame(data, data', x, x + NEXT_FREE, h.nextFree);
    WordSame(data, data', x, x + PREV_FREE, h.prevFree);
  }

  lemma WordSame(data: seq<int>, data': seq<int>, x: nat, a: nat, v: nat)
    requires WordAt(data, a, v) && |data'| == |data| && x <= a && a + 4 <= x + HEADER
    requires forall k: nat | k < |data| && x <= HEAP_START + k < x + HEADER :: data'[k] == data[k]
    ensures WordAt(data', a, v)
  {
    var o := a - HEAP_START;
    assert data'[o..o + 4] == data[o..o + 4];
  }

  /** A whole header stored at a new address. */
  lemma NewBacked(hdr: Headers, data: seq<int>, a: set<nat>, n: nat, h: Header)
    requires Backed(hdr, data, a) && Spread(a + {n}) && n !in a && HEAP_START <= n && n + HEADER <= HEAP_START + |data|
    ensures Backed(hdr[n := h], StoreHeader(data, n, h), a + {n})
  {
    hide StoreHeader, HeaderAt;
    HeaderStored(data, n, h);
    OnlyNothing(data, {n});
    HeaderOnly(data, data, {n}, n, h);
    forall y | y in a
      ensures y in hdr && HeaderAt(StoreHeader(data, n, h), y, hdr[n := h][y])
    {
      OnlyBeside(data, StoreHeader(data, n, h), n, y);
      HeaderSame(data, StoreHeader(data, n, h), y, hdr[y]);
    }
  }

  lemma OnlyBeside(data: seq<int>, data': seq<int>, n: nat, y: nat)
    requires OnlyAt(data, data', {n}) && (y + HEADER <= n || n + HEADER <= y)
    ensures |data'| == |data| && forall k: nat | k < |data| && y <= HEAP_START + k < y + HEADER :: data'[k] == data[k]
  {
    assert forall k: nat | k < |data| && y <= HEAP_START + k < y + HEADER :: Outside({n}, k);
  }

  /** The word at `a` lies in no header at an address of `s`. */
  ghost predicate Misses(s: set<nat>, a: nat) {
    forall x | x in s :: x + HEADER <= a || a + 4 <= x
  }

  /** A store through a header that is none leaves the others as they are. */
  lemma MissBacked(hdr: Headers, data: seq<int>, a: set<nat>, tail: nat, v: nat)
    requires Backed(hdr, data, a) && tail !in a && tail in hdr && Misses(a, tail + NEXT)
    ensures Backed(hdr[tail := hdr[tail].(next := v)], Store(data, tail + NEXT, v), a)
  {
    hide HeaderAt, Store;
    forall y | y in a
      ensures HeaderAt(Store(data, tail + NEXT, v), y, hdr[y])
    {
      HeaderAway(data, y, hdr[y], tail + NEXT, v);
    }
  }

  lemma BackedSub(hdr: Headers, data: seq<int>, a: set<nat>, b: set<nat>)
    requires Backed(hdr, data, a) && Spread(a) && b <= a
    ensures Backed(hdr, data, b) && Spread(b)
  {
  }

  lemma SpreadSub(a: set<nat>, b: set<nat>)
    requires Spread(a) && b <= a
    ensures Spread(b)
  {
  }

  /** The block headers of a heap list do not overlap. */
  lemma HeapSpread(hdr: Headers, l: seq<nat>, end: nat)
    requires HeapList(hdr, l, end)
    ensures Spread(Blocks(l)) && Spread(Blocks(l) + {end}) && forall x | x in l :: HEAP_START <= x && x + HEADER <= end
  {
    forall x, y | x in Blocks(l) + {end} && y in Blocks(l) + {end} && x < y
      ensures x + HEADER <= y
    {
      if x == end {
        Member(l, IndexOf(l, y));
        ToEnd(hdr, l, end, IndexOf(l, y));
      } else {
        var i := IndexOf(l, x);
        ToEnd(hdr, l, end, i);
        if y != end {
          var j := IndexOf(l, y);
          if i < j { Ordered(hdr, l, end, i, j); } else if j < i { Ordered(hdr, l, end, j, i); }
        }
      }
    }
    SpreadSub(Blocks(l) + {end}, Blocks(l));
    forall x | x in l
      ensures HEAP_START <= x && x + HEADER <= end
    {
      FromStart(hdr, l, end, IndexOf(l, x));
      ToEnd(hdr, l, end, IndexOf(l, x));
    }
  }

  /** A store through a null pointer is not made: address 0 is outside the heap. */
  lemma OnlyNull(data: seq<int>, data': seq<int>, s: set<nat>)
    requires OnlyAt(data, data', s + {0})
    ensures OnlyAt(data, data', s)
  {
    assert forall k: nat | Outside(s, k) :: Outside(s + {0}, k);
  }

  // ----- splitting --------------------------------------------------------------------

  /** The header at `x` after `b` was split at `n`. */
  function AfterSplit(h: Header, x: nat, b: nat, n: nat, next: nat, first: nat, aligned: nat): Header {
    h.(size := if x == b then aligned else h.size,
       next := if x == b then n else h.next,
       prev := if x == next then n else h.prev,
       prevFree := if x == first then n else h.prevFree)
  }

  /** Both lists after a split, and what the split left alone. */
  ghost predicate SplitLists(hdr: Headers, hdr': Headers, l: seq<nat>, l': seq<nat>, f': seq<nat>, end: nat,
                             b: nat, n: nat) {
    && n !in l && n in hdr' && hdr'[n].free && 0 !in hdr'
    && HeapList(hdr', l', end) && FreeList(hdr', f')
    && SameFlags(hdr, hdr', l) && SameSizes(hdr, hdr', l, b)
    && OnlyHeaders(hdr, hdr', Blocks(l) + {n})
  }

  lemma SplitPre(hdr: Headers, l: seq<nat>, f: seq<nat>, end: nat, i: nat, n: nat)
    requires Coherent(hdr, l, f, end) && i < |l| && l[i] in hdr
    requires l[i] + HEADER <= n && n + HEADER <= End(hdr, l[i])
    ensures n !in l && At(l, i + 1) == hdr[l[i]].next && n != 0 && n + HEADER <= end
    ensures hdr[l[i]].next != 0 ==> hdr[l[i]].next in hdr && hdr[l[i]].next != l[i]
    ensures hdr[l[i]].next in l || hdr[l[i]].next == 0
    ensures hdr[l[i]].next == 0 <==> i + 1 == |l|
    ensures At(f, 0) != 0 ==> At(f, 0) in hdr && At(f, 0) in l
  {
    assert BlockOk(hdr, l, end, i);
    Inside(hdr, l, end, i, n);
    Distinct(hdr, l, end);
    if f != [] { assert NodeOk(hdr, f, 0) && f[0] in f; }
  }

  lemma SplitSpread(hdr: Headers, l: seq<nat>, f: seq<nat>, end: nat, i: nat, n: nat)
    requires Coherent(hdr, l, f, end) && i < |l| && l[i] in hdr && l[i] + HEADER <= n && n + HEADER <= End(hdr, l[i])
    ensures n !in Blocks(l) && Spread(Blocks(l) + {n}) && HEAP_START <= n && n + HEADER <= end
  {
    HeapSpread(hdr, l, end);
    FromStart(hdr, l, end, i);
    ToEnd(hdr, l, end, i);
    Inside(hdr, l, end, i, n);
    forall y | y in l
      ensures y + HEADER <= n || n + HEADER <= y
    {
      var j := IndexOf(l, y);
      if j < i { Ordered(hdr, l, end, j, i); } else if i < j { Ordered(hdr, l, end, i, j); }
    }
  }

  lemma SplitBlocks(l: seq<nat>, i: nat, n: nat)
    requires i < |l|
    ensures Blocks(l[..i + 1] + [n] + l[i + 1..]) == Blocks(l) + {n}
  {
    assert l == l[..i + 1] + l[i + 1..];
  }

  lemma OnlyLength(data: seq<int>, data': seq<int>, s: set<nat>)
    requires OnlyAt(data, data', s)
    ensures |data'| == |data|
  {
  }

  /** The headers after the stores of `_split_block`. */
  ghost predicate SplitDone(hdr: Headers, hdr': Headers, b: nat, aligned: nat, first: nat)
    requires b in hdr && aligned + HEADER <= hdr[b].size
  {
    var n, next := b + HEADER + aligned, hdr[b].next;
    && hdr'.Keys == hdr.Keys + {n}
    && hdr'[n] == Header(hdr[b].size - aligned - HEADER, true, next, b, first, 0)
    && forall x | x in hdr && x != n :: hdr'[x] == AfterSplit(hdr[x], x, b, n, next, first, aligned)
  }

  lemma SplitIs(hdr: Headers, hdr1: Headers, hdr2: Headers, b: nat, n: nat, aligned: nat, first: nat)
    requires b in hdr && aligned + HEADER <= hdr[b].size && n == b + HEADER + aligned && n != hdr[b].next
    requires hdr1.Keys == hdr.Keys + {n}
    requires hdr1[n] == Header(hdr[b].size - aligned - HEADER, true, hdr[b].next, b, first, 0)
    requires forall x | x in hdr && x != n :: hdr1[x] == hdr[x].(prevFree := if x == first then n else hdr[x].prevFree)
    requires hdr2.Keys == hdr1.Keys
    requires forall x | x in hdr1 :: hdr2[x] == hdr1[x].(
      size := if x == b then aligned else hdr1[x].size, next := if x == b then n else hdr1[x].next,
      prev := if x == hdr[b].next then n else hdr1[x].prev)
    ensures SplitDone(hdr, hdr2, b, aligned, first)
  {
  }

  lemma SplitHeapList(hdr: Headers, hdr': Headers, l: seq<nat>, f: seq<nat>, end: nat, i: nat, aligned: nat)
    requires Coherent(hdr, l, f, end) && i < |l| && l[i] in hdr
    requires 8 <= aligned && aligned % 8 == 0 && aligned + HEADER + MIN_BLOCK <= hdr[l[i]].size
    requires SplitDone(hdr, hdr', l[i], aligned, At(f, 0))
    ensures HeapList(hdr', l[..i + 1] + [l[i] + HEADER + aligned] + l[i + 1..], end)
  {
    SplitPre(hdr, l, f, end, i, l[i] + HEADER + aligned);
    Distinct(hdr, l, end);
    Divided(hdr, hdr', l, end, i, aligned);
  }

  lemma SplitFreeList(hdr: Headers, hdr': Headers, l: seq<nat>, f: seq<nat>, end: nat, i: nat, aligned: nat)
    requires Coherent(hdr, l, f, end) && i < |l| && l[i] in hdr
    requires aligned + HEADER + MIN_BLOCK <= hdr[l[i]].size
    requires SplitDone(hdr, hdr', l[i], aligned, At(f, 0))
    ensures FreeList(hdr', [l[i] + HEADER + aligned] + f)
  {
    SplitPre(hdr, l, f, end, i, l[i] + HEADER + aligned);
    Pushed(hdr, hdr', f, l[i] + HEADER + aligned);
  }

  lemma SplitStep(hdr: Headers, hdr': Headers, l: seq<nat>, f: seq<nat>, end: nat, i: nat, aligned: nat)
    requires Coherent(hdr, l, f, end) && i < |l| && l[i] in hdr
    requires 8 <= aligned && aligned % 8 == 0 && aligned + HEADER + MIN_BLOCK <= hdr[l[i]].size
    requires SplitDone(hdr, hdr', l[i], aligned, At(f, 0))
    ensures var n := l[i] + HEADER + aligned;
      SplitLists(hdr, hdr', l, l[..i + 1] + [n] + l[i + 1..], [n] + f, end, l[i], n)
  {
    hide HeapList, FreeList;
    SplitHeapList(hdr, hdr', l, f, end, i, aligned);
    SplitFreeList(hdr, hdr', l, f, end, i, aligned);
    SplitPre(hdr, l, f, end, i, l[i] + HEADER + aligned);
  }

  // ----- unlinking --------------------------------------------------------------------

  /** Only free-list links changed, and only in the elements of `f`. */
  ghost predicate LinksOnly(hdr: Headers, hdr': Headers, f: seq<nat>) {
    && hdr'.Keys == hdr.Keys
    && forall x | x in hdr ::
         hdr'[x] == if x in f then hdr[x].(nextFree := hdr'[x].nextFree, prevFree := hdr'[x].prevFree) else hdr[x]
  }

  lemma Neighbours(hdr: Headers, f: seq<nat>, k: nat)
    requires 0 !in hdr && FreeList(hdr, f) && k < |f|
    ensures f[k] in hdr && hdr[f[k]].prevFree == At(f, k - 1) && hdr[f[k]].nextFree == At(f, k + 1)
    ensures 0 < k ==> f[k - 1] in hdr && f[k - 1] != 0
    ensures k + 1 < |f| ==> f[k + 1] in hdr && f[k + 1] != 0
    ensures f[k] == f[0] <==> k == 0
  {
    assert NodeOk(hdr, f, k);
    if 0 < k { assert NodeOk(hdr, f, k - 1); }
    if k + 1 < |f| { assert NodeOk(hdr, f, k + 1); }
  }

  lemma UnlinkStep(hdr: Headers, hdr': Headers, f: seq<nat>, k: nat)
    requires FreeList(hdr, f) && k < |f| && hdr'.Keys == hdr.Keys
    requires forall i: nat | i < |f| && i != k && f[i] in hdr ::
      hdr'[f[i]] == hdr[f[i]].(nextFree := if i + 1 == k then At(f, k + 1) else hdr[f[i]].nextFree,
                               prevFree := if i == k + 1 then At(f, k - 1) else hdr[f[i]].prevFree)
    ensures FreeList(hdr', Without(f, k)) && f[k] !in Without(f, k)
    ensures forall b :: b in Without(f, k) <==> b in f && b != f[k]
  {
    Unlinked(hdr, hdr', f, k);
  }

  // ----- taking a free block ------------------------------------------------------------

  ghost function IndexOf(l: seq<nat>, b: nat): (i: nat)
    requires b in l
    ensures i < |l| && l[i] == b
  {
    var i: nat :| i < |l| && l[i] == b; i
  }

  /** Block `b` went from free to live with at least `aligned` bytes; `n` is the free rest, or `b` when there is none.
      Every other block is as it was. */
  ghost predicate Taken(hdr: Headers, hdr': Headers, l: seq<nat>, l': seq<nat>, b: nat, n: nat, aligned: nat) {
    && b in l && b in hdr && hdr[b].free && b in l' && b in hdr' && !hdr'[b].free
    && aligned <= hdr'[b].size
    && (n != b ==> hdr'[b].size == aligned && n == b + HEADER + aligned && n + MIN_BLOCK <= End(hdr, b))
    && (n == b ==> hdr'[b].size == hdr[b].size < aligned + HEADER + MIN_BLOCK)
    && (forall x | x in l && x != b ::
          x in l' && x in hdr && x in hdr' && hdr'[x].free == hdr[x].free && hdr'[x].size == hdr[x].size)
    && (forall x | x in l' && x !in l :: x == n && b < n && x in hdr' && hdr'[x].free)
    && OnlyHeaders(hdr, hdr', Blocks(l) + {n})
  }

  /** The flags after block `b` was taken from a heap whose blocks were `l`, leaving `n` free. */
  ghost predicate FlagsAfter(hdr: Headers, hdr': Headers, l: seq<nat>, b: nat, n: nat) {
    && (forall x | x in l :: x in hdr && x in hdr' && hdr'[x].free == (x != b && hdr[x].free))
    && (n != b ==> n !in l && n in hdr' && hdr'[n].free)
  }

  lemma TakeLists(hdr1: Headers, hdr2: Headers, hdr3: Headers, l: seq<nat>, f: seq<nat>, f': seq<nat>, end: nat, b: nat)
    requires HeapList(hdr1, l, end) && LinksOnly(hdr1, hdr2, f) && FreeList(hdr2, f') && b in hdr2
    requires hdr3 == hdr2[b := hdr2[b].(free := false)]
    ensures HeapList(hdr3, l, end) && FreeList(hdr3, f')
  {
    HeapListFrame(hdr1, hdr3, l, end);
    FreeListFrame(hdr2, hdr3, f');
  }

  lemma TakeMatches(hdr: Headers, hdr': Headers, l: seq<nat>, f: seq<nat>, f': seq<nat>, i: nat, n: nat)
    requires Matches(hdr, l, f) && i < |l| && FlagsAfter(hdr, hdr', l, l[i], n)
    requires forall x :: x in f' <==> (x in f && x != l[i]) || (x == n && n != l[i])
    ensures Matches(hdr', MaybeSplit(l, i, n), f')
  {
    assert forall x :: x in MaybeSplit(l, i, n) <==> x in l || x == n by {
      assert l == l[..i + 1] + l[i + 1..];
    }
  }

  lemma TakeApart(hdr: Headers, hdr': Headers, l: seq<nat>, f: seq<nat>, end: nat, i: nat, n: nat)
    requires Coherent(hdr, l, f, end) && i < |l| && FlagsAfter(hdr, hdr', l, l[i], n) && l[i] in hdr && hdr[l[i]].free
    ensures forall j: nat | j + 1 < |MaybeSplit(l, i, n)| :: Apart(hdr', MaybeSplit(l, i, n), j)
  {
    var l' := MaybeSplit(l, i, n);
    forall j: nat | j + 1 < |l'|
      ensures Apart(hdr', l', j)
    {
      if n == l[i] {
        assert Apart(hdr, l, j) && l[j] in l && l[j + 1] in l;
      } else if j < i {
        assert Apart(hdr, l, j) && l[j] in l && l[j + 1] in l;
      } else if j == i {
        assert l[i] in l;
      } else {
        assert Apart(hdr, l, j - 1) && l[j - 1] in l && l[j] in l && l'[j + 1] == l[j];
      }
    }
  }

  /** The list after a split of element `i`, or the list itself. */
  function MaybeSplit(l: seq<nat>, i: nat, n: nat): seq<nat>
    requires i < |l|
  {
    if n == l[i] then l else l[..i + 1] + [n] + l[i + 1..]
  }

  /** The chosen block `i`, split at `n`, or left whole when too little would remain. */
  ghost predicate SplitStage(hdr0: Headers, hdr1: Headers, l: seq<nat>, f: seq<nat>, f1: seq<nat>, end: nat,
                             i: nat, n: nat, aligned: nat) {
    && i < |l| && l[i] in hdr0 && hdr0[l[i]].free && aligned <= hdr0[l[i]].size
    && (if n == l[i] then hdr1 == hdr0 && f1 == f && hdr0[l[i]].size < aligned + HEADER + MIN_BLOCK
        else n == l[i] + HEADER + aligned && aligned + HEADER + MIN_BLOCK <= hdr0[l[i]].size
             && f1 == [n] + f && l[i] in hdr1 && hdr1[l[i]].size == aligned
             && SplitLists(hdr0, hdr1, l, MaybeSplit(l, i, n), f1, end, l[i], n))
  }

  /** The headers along the reuse path: `hdr1` after a possible split, `hdr2` after the removal, `hdr3` at the end. */
  ghost predicate TakePath(hdr0: Headers, hdr1: Headers, hdr2: Headers, hdr3: Headers,
                           l: seq<nat>, f: seq<nat>, f1: seq<nat>, f2: seq<nat>, end: nat, i: nat, n: nat,
                           aligned: nat) {
    && SplitStage(hdr0, hdr1, l, f, f1, end, i, n, aligned)
    && LinksOnly(hdr1, hdr2, f1) && FreeList(hdr2, f2)
    && (forall x :: x in f2 <==> x in f1 && x != l[i])
    && l[i] in hdr2 && hdr3 == hdr2[l[i] := hdr2[l[i]].(free := false)]
  }

  lemma TakePathIs(hdr0: Headers, hdr1: Headers, hdr2: Headers, hdr3: Headers,
                   l: seq<nat>, f: seq<nat>, f1: seq<nat>, f2: seq<nat>, end: nat, i: nat, n: nat, aligned: nat)
    requires i < |l| && SplitStage(hdr0, hdr1, l, f, f1, end, i, n, aligned) && LinksOnly(hdr1, hdr2, f1)
    requires FreeList(hdr2, f2)
    requires (forall x :: x in f2 <==> x in f1 && x != l[i]) && l[i] in hdr2
    requires hdr3 == hdr2[l[i] := hdr2[l[i]].(free := false)]
    ensures TakePath(hdr0, hdr1, hdr2, hdr3, l, f, f1, f2, end, i, n, aligned)
  {
  }

  lemma FreeMember(hdr: Headers, l: seq<nat>, f: seq<nat>, end: nat, k: nat)
    requires Coherent(hdr, l, f, end) && k < |f|
    ensures f[k] in l && f[k] in hdr && hdr[f[k]].free
  {
    assert f[k] in f;
  }

  lemma MaybeBlocks(l: seq<nat>, i: nat, n: nat)
    requires i < |l|
    ensures Blocks(MaybeSplit(l, i, n)) == Blocks(l) + {n}
  {
    SplitBlocks(l, i, n);
  }

  lemma SplitEnds(l: seq<nat>, i: nat, n: nat)
    requires i < |l|
    ensures At(MaybeSplit(l, i, n), 0) == At(l, 0)
  {
  }

  lemma StageHeader(hdr0: Headers, hdr1: Headers, l: seq<nat>, f: seq<nat>, f1: seq<nat>, end: nat, i: nat,
                    n: nat, aligned: nat)
    requires Coherent(hdr0, l, f, end) && SplitStage(hdr0, hdr1, l, f, f1, end, i, n, aligned)
    ensures l[i] in hdr1 && Blocks(f1) <= Blocks(l) + {n}
  {
  }

  lemma TakeFlags(hdr0: Headers, hdr1: Headers, hdr2: Headers, hdr3: Headers,
                  l: seq<nat>, f: seq<nat>, f1: seq<nat>, f2: seq<nat>, end: nat, i: nat, n: nat, aligned: nat)
    requires Coherent(hdr0, l, f, end) && TakePath(hdr0, hdr1, hdr2, hdr3, l, f, f1, f2, end, i, n, aligned)
    ensures FlagsAfter(hdr0, hdr3, l, l[i], n) && 0 !in hdr3
    ensures forall x | x in l && x != l[i] :: x in hdr0 && x in hdr3 && hdr3[x].size == hdr0[x].size
  {
    Distinct(hdr0, l, end);
  }

  lemma TakeCoherent(hdr0: Headers, hdr1: Headers, hdr2: Headers, hdr3: Headers,
                     l: seq<nat>, f: seq<nat>, f1: seq<nat>, f2: seq<nat>, end: nat, i: nat, n: nat, aligned: nat)
    requires Coherent(hdr0, l, f, end) && TakePath(hdr0, hdr1, hdr2, hdr3, l, f, f1, f2, end, i, n, aligned)
    ensures Coherent(hdr3, MaybeSplit(l, i, n), f2, end)
  {
    hide HeapList, FreeList;
    TakeLists(hdr1, hdr2, hdr3, MaybeSplit(l, i, n), f1, f2, end, l[i]);
    TakeFlags(hdr0, hdr1, hdr2, hdr3, l, f, f1, f2, end, i, n, aligned);
    TakeMatches(hdr0, hdr3, l, f, f2, i, n);
    TakeApart(hdr0, hdr3, l, f, end, i, n);
  }

  lemma TakeEffect(hdr0: Headers, hdr1: Headers, hdr2: Headers, hdr3: Headers,
                   l: seq<nat>, f: seq<nat>, f1: seq<nat>, f2: seq<nat>, end: nat, i: nat, n: nat, aligned: nat)
    requires Coherent(hdr0, l, f, end) && TakePath(hdr0, hdr1, hdr2, hdr3, l, f, f1, f2, end, i, n, aligned)
    ensures Taken(hdr0, hdr3, l, MaybeSplit(l, i, n), l[i], n, aligned)
  {
    hide HeapList, FreeList;
    TakeFlags(hdr0, hdr1, hdr2, hdr3, l, f, f1, f2, end, i, n, aligned);
    assert forall x :: x in MaybeSplit(l, i, n) <==> x in l || x == n by {
      assert l == l[..i + 1] + l[i + 1..];
    }
    assert forall x | x in f1 :: x in l || x == n;
  }

  // ----- new blocks -------------------------------------------------------------------

  /** A live block of `aligned` bytes was appended at `b`; every other block is as it was. */
  ghost predicate Made(hdr: Headers, hdr': Headers, l: seq<nat>, l': seq<nat>, b: nat, aligned: nat) {
    && l' == l + [b] && b !in l && b in hdr' && !hdr'[b].free && hdr'[b].size == aligned
    && (forall x | x in l :: x in hdr && x in hdr' && hdr'[x].free == hdr[x].free && hdr'[x].size == hdr[x].size)
    && OnlyHeaders(hdr, hdr', Blocks(l) + {b})
  }

  lemma MakeStep(hdr: Headers, hdr': Headers, l: seq<nat>, f: seq<nat>, end: nat, size: nat)
    requires Coherent(hdr, l, f, end) && 8 <= size && size % 8 == 0
    requires var tail := At(l, |l| - 1);
      && hdr'.Keys == hdr.Keys + {end}
      && hdr'[end] == Header(size, false, 0, tail, 0, 0)
      && forall x | x in hdr && x != end :: hdr'[x] == if l != [] && x == tail then hdr[x].(next := end) else hdr[x]
    ensures Coherent(hdr', l + [end], f, end + HEADER + size)
    ensures Made(hdr, hdr', l, l + [end], end, size)
  {
    var l' := l + [end];
    Distinct(hdr, l, end);
    if l == [] { assert l' == [end]; }
    Appended(hdr, hdr', l, end, size);
    FreeListFrame(hdr, hdr', f);
    forall i: nat | i + 1 < |l'|
      ensures Apart(hdr', l', i)
    {
      if i + 1 < |l| { assert Apart(hdr, l, i); }
    }
  }

  lemma MakePre(hdr: Headers, l: seq<nat>, f: seq<nat>, end: nat, tail: nat)
    requires Coherent(hdr, l, f, end) && Near(hdr, l, end, tail)
    ensures 0 !in hdr && At(l, 0) != end && end % 8 == 0 && HEAP_START <= end
    ensures if At(l, 0) == 0 then l == [] && tail == 0 else tail in hdr && tail != end
  {
    Distinct(hdr, l, end);
    StaleTail(hdr, l, f, end, tail);
  }

  lemma MakeSpread(hdr: Headers, l: seq<nat>, f: seq<nat>, end: nat, tail: nat)
    requires Coherent(hdr, l, f, end) && Near(hdr, l, end, tail)
    ensures end !in Blocks(l) && Spread(Blocks(l) + {end}) && Blocks(l + [end]) == Blocks(l) + {end}
    ensures l != [] ==> tail in Blocks(l) || Misses(Blocks(l) + {end}, tail + NEXT)
  {
    HeapSpread(hdr, l, end);
    StaleTail(hdr, l, f, end, tail);
    if l != [] && tail !in l {
      forall x | x in l
        ensures x + HEADER <= tail + NEXT
      {
        UpToLast(hdr, l, end, IndexOf(l, x));
      }
    }
  }

  /** What the stores of `_make_new_block` amount to. */
  lemma MakeEffect(hdr: Headers, hdr': Headers, l: seq<nat>, f: seq<nat>, end: nat, end': nat, size: nat,
                   tail: nat, data: seq<int>, data': seq<int>)
    requires Coherent(hdr, l, f, end) && Near(hdr, l, end, tail) && 8 <= size && size % 8 == 0
    requires end' == end + HEADER + size
    requires hdr'.Keys == hdr.Keys + {end} && hdr'[end] == Header(size, false, 0, tail, 0, 0)
    requires end <= HEAP_START + |data|
    requires forall x | x in hdr && x != end ::
      hdr'[x] == if At(l, 0) != 0 && x == tail then hdr[x].(next := end) else hdr[x]
    requires OnlyAt(TailStored(data, tail, end), data', {end})
    ensures Kept(hdr, TailStored(data, tail, end), hdr', data', l)
    ensures Kept(hdr, data, hdr', data', l) <==> Spared(hdr, data, l, tail, end)
    ensures tail == At(l, |l| - 1) ==>
      Coherent(hdr', l + [end], f, end') && Near(hdr', l + [end], end', end) && Made(hdr, hdr', l, l + [end], end, size)
    ensures tail != At(l, |l| - 1) ==>
      && (forall k :: !HeapList(hdr', k, end')) && !Coherent(hdr', l, f, end')
      && Coherent(hdr', l, f, end) && SameLive(hdr, hdr', l)
  {
    hide OnlyAt, TailStored, Made, Spared, Kept, SameLive;
    TailStoreMeaning(hdr, l, f, end, data, tail);
    Distinct(hdr, l, end);
    StaleTail(hdr, l, f, end, tail);
    NewKeeps(hdr, hdr', l, f, end, data, data', tail);
    if tail == At(l, |l| - 1) {
      MakeStep(hdr, hdr', l, f, end, size);
    } else {
      MakeLost(hdr, hdr', l, f, end, tail, end');
    }
  }

  /** Both lists survive a header that belongs to neither. */
  lemma LostCoherent(hdr: Headers, hdr': Headers, l: seq<nat>, f: seq<nat>, end: nat, tail: nat)
    requires Coherent(hdr, l, f, end) && tail !in l && end !in l && end != 0
    requires hdr'.Keys == hdr.Keys + {end} && forall x | x in hdr && x != end && x != tail :: hdr'[x] == hdr[x]
    ensures Coherent(hdr', l, f, end) && HeapList(hdr', l, end)
  {
    HeapListFrame(hdr, hdr', l, end);
    FreeListFrame(hdr, hdr', f);
    forall j: nat | j + 1 < |l|
      ensures Apart(hdr', l, j)
    {
      assert Apart(hdr, l, j);
    }
  }

  /** The blocks of `l` are live in both states or in neither, with the same sizes. */
  ghost predicate SameLive(hdr: Headers, hdr': Headers, l: seq<nat>) {
    forall x | x in l && x in hdr :: x in hdr' && hdr'[x].free == hdr[x].free && hdr'[x].size == hdr[x].size
  }

  /** The stores of a new block: what the store through the tail leaves of the live payloads is kept. */
  lemma NewKeeps(hdr: Headers, hdr': Headers, l: seq<nat>, f: seq<nat>, end: nat, data: seq<int>,
                 data': seq<int>, tail: nat)
    requires Coherent(hdr, l, f, end) && (forall x | x in l :: x in hdr && x < end)
    requires OnlyAt(TailStored(data, tail, end), data', {end}) && hdr'.Keys == hdr.Keys + {end}
    requires forall x | x in hdr && x != end :: hdr'[x] == hdr[x] || (x == tail && hdr'[x] == hdr[x].(next := end))
    ensures Kept(hdr, TailStored(data, tail, end), hdr', data', l)
    ensures Kept(hdr, data, hdr', data', l) <==> Kept(hdr, data, hdr, TailStored(data, tail, end), l)
  {
    hide OnlyAt, TailStored, Coherent, Kept;
    assert Harmless(hdr, l, f, end, end);
    StoresKeep(hdr, hdr', l, f, end, TailStored(data, tail, end), data', {end});
    KeptTrans(hdr, data, hdr, TailStored(data, tail, end), hdr', data', l);
  }

  lemma NoWhole(hdr: Headers, l: seq<nat>, f: seq<nat>, end: nat)
    requires forall k :: !HeapList(hdr, k, end)
    ensures !Coherent(hdr, l, f, end)
  {
  }

  lemma MakeLost(hdr: Headers, hdr': Headers, l: seq<nat>, f: seq<nat>, end: nat, tail: nat, end': nat)
    requires Coherent(hdr, l, f, end) && l != [] && tail !in l && end < end'
    requires hdr'.Keys == hdr.Keys + {end}
    requires forall x | x in hdr && x != end && x != tail :: hdr'[x] == hdr[x]
    requires tail in hdr ==> tail in hdr' && hdr'[tail] == hdr[tail].(next := end)
    ensures forall l' :: !HeapList(hdr', l', end')
    ensures Coherent(hdr', l, f, end) && SameLive(hdr, hdr', l)
  {
    Distinct(hdr, l, end);
    LostCoherent(hdr, hdr', l, f, end, tail);
    FromStart(hdr, l, end, 0);
    ToEnd(hdr, l, end, 0);
    forall l' | HeapList(hdr', l', end')
      ensures false
    {
      UniqueEnd(hdr', l, end, l', end');
    }
  }

  // ----- the tail ---------------------------------------------------------------------

  /** Where `heapTail` can be: on the last block, or, stale, on an old header inside it. */
  ghost predicate Near(hdr: Headers, l: seq<nat>, end: nat, tail: nat) {
    if l == [] then tail == 0
    else tail in hdr && (tail == l[|l| - 1] || l[|l| - 1] + HEADER <= tail) && tail + HEADER <= end
  }

  lemma {:induction false} UpToLast(hdr: Headers, l: seq<nat>, end: nat, i: nat)
    requires HeapList(hdr, l, end) && i < |l|
    ensures HEAP_START <= l[i] && l[|l| - 1] + HEADER <= end && end % 8 == 0
    ensures l[i] == l[|l| - 1] || l[i] + HEADER <= l[|l| - 1]
  {
    FromStart(hdr, l, end, i);
    FromStart(hdr, l, end, |l| - 1);
    assert BlockOk(hdr, l, end, |l| - 1);
    if i + 1 < |l| { Ordered(hdr, l, end, i, |l| - 1); }
  }

  /** A stale tail is no block. */
  lemma StaleTail(hdr: Headers, l: seq<nat>, f: seq<nat>, end: nat, tail: nat)
    requires Coherent(hdr, l, f, end) && Near(hdr, l, end, tail)
    ensures tail != At(l, |l| - 1) ==> l != [] && tail !in l
    ensures end % 8 == 0 && HEAP_START <= end
  {
    if l != [] { UpToLast(hdr, l, end, |l| - 1); }
    if tail in l {
      var i :| 0 <= i < |l| && l[i] == tail;
      UpToLast(hdr, l, end, i);
    }
  }

  /** Taking a block keeps the tail near; splitting the last block sets it right. */
  lemma TakenTail(hdr: Headers, hdr': Headers, l: seq<nat>, f': seq<nat>, end: nat, tail: nat, i: nat, n: nat,
                  aligned: nat)
    requires i < |l| && Near(hdr, l, end, tail) && Taken(hdr, hdr', l, MaybeSplit(l, i, n), l[i], n, aligned)
    requires Coherent(hdr', MaybeSplit(l, i, n), f', end)
    ensures var l', tail' := MaybeSplit(l, i, n), if n != l[i] && i + 1 == |l| then n else tail;
      && Near(hdr', l', end, tail')
      && (tail == l[|l| - 1] ==> tail' == l'[|l'| - 1])
  {
    var l' := MaybeSplit(l, i, n);
    assert l'[|l'| - 1] == if n != l[i] && i + 1 == |l| then n else l[|l| - 1];
    assert n != l[i] ==> l'[i + 1] == n;
    assert tail in hdr';
    UpToLast(hdr', l', end, |l'| - 1);
    hide Coherent, HeapList, Taken;
  }

  /** Freeing a block keeps the tail near, because the last block can only move towards the start. */
  lemma FreedTail(hdr: Headers, hdr1: Headers, hdr': Headers, l: seq<nat>, f: seq<nat>, end: nat, tail: nat, i: nat)
    requires Coherent(hdr, l, f, end) && i < |l| && l[i] in hdr && Near(hdr, l, end, tail) && hdr'.Keys == hdr.Keys
    requires hdr1 == hdr[l[i] := hdr[l[i]].(free := true)]
    ensures var l' := Coalesced(hdr1, l, i);
      && l' != [] && Near(hdr', l', end, tail)
      && (tail == l'[|l'| - 1] <==> tail == l[|l| - 1] && !TailAbsorbed(hdr, l[i]))
  {
    FreeTail(hdr, hdr1, l, end, i);
    LastMerged(l, i, i + 1 < |l| && Free(hdr1, l[i + 1]), i > 0 && Free(hdr1, l[i - 1]));
    UpToLast(hdr, l, end, i);
    if i > 0 { UpToLast(hdr, l, end, i - 1); }
    hide Without, Free, TailAbsorbed, Coherent, HeapList;
  }

  lemma Aligned(hdr: Headers, l: seq<nat>, f: seq<nat>, end: nat)
    requires Coherent(hdr, l, f, end)
    ensures forall b | b in l :: b % 8 == 0 && b != 0
  {
    Distinct(hdr, l, end);
  }

  // ----- best fit ---------------------------------------------------------------------

  ghost predicate NoFit(hdr: Headers, f: seq<nat>, size: nat) {
    forall b | b in f && b in hdr :: hdr[b].size < size
  }

  /** `b` is a smallest free block of at least `size` bytes. */
  ghost predicate BestFit(hdr: Headers, f: seq<nat>, size: nat, b: nat) {
    && b in f && b in hdr && size <= hdr[b].size
    && forall x | x in f && x in hdr && size <= hdr[x].size :: hdr[b].size <= hdr[x].size
  }

  lemma NullFree(hdr: Headers, l: seq<nat>, f: seq<nat>, end: nat)
    requires Coherent(hdr, l, f, end)
    ensures 0 !in f
  {
    Distinct(hdr, l, end);
  }

  /** What the scan reads of a free block. */
  lemma FreeNode(hdr: Headers, l: seq<nat>, f: seq<nat>, end: nat, i: nat)
    requires Coherent(hdr, l, f, end) && i < |f|
    ensures f[i] in f && f[i] in hdr && HEAP_START <= f[i] < end && hdr[f[i]].nextFree == At(f, i + 1)
    ensures f[i] != At(f, i + 1)
  {
    Distinct(hdr, l, end);
    assert NodeOk(hdr, f, i) && f[i] in f;
  }

  // ----- coalescing -------------------------------------------------------------------

  /** Both lists while block `i`, already marked free, is not yet in the free list. */
  ghost predicate Pending(hdr: Headers, l: seq<nat>, f: seq<nat>, end: nat, i: nat) {
    && 0 !in hdr && HeapList(hdr, l, end) && FreeList(hdr, f)
    && i < |l| && l[i] in hdr && hdr[l[i]].free
    && (forall x :: x in f <==> x in l && x in hdr && hdr[x].free && x != l[i])
    && (forall j: nat {:trigger Apart(hdr, l, j)} | j + 1 < |l| && j != i && j + 1 != i :: Apart(hdr, l, j))
  }

  ghost predicate Absorbed(hdr: Headers, hdr': Headers, first: nat, second: nat)
    requires first in hdr && second in hdr
  {
    var third := hdr[second].next;
    && hdr'.Keys == hdr.Keys
    && forall x | x in hdr :: hdr'[x] == hdr[x].(
         size := if x == first then hdr[x].size + (hdr[second].size + HEADER) else hdr[x].size,
         next := if x == first then third else hdr[x].next,
         prev := if x == third then first else hdr[x].prev)
  }

  /** What a merge of blocks `j` and `j + 1` leaves alone: all flags, and the size of every block but `j`. */
  ghost predicate MergedOnly(hdr: Headers, hdr': Headers, l: seq<nat>, l': seq<nat>, j: nat)
    requires j + 1 < |l|
  {
    && (forall x :: x in l' <==> x in l && x != l[j + 1])
    && (forall x | x in l ::
          x in hdr && x in hdr' && hdr'[x].free == hdr[x].free && (x != l[j] ==> hdr'[x].size == hdr[x].size))
    && hdr'.Keys == hdr.Keys && OnlyHeaders(hdr, hdr', Blocks(l))
  }

  lemma MergePre(hdr: Headers, l: seq<nat>, f: seq<nat>, end: nat, i: nat, j: nat)
    requires Pending(hdr, l, f, end, i) && j + 1 < |l| && (i == j || i == j + 1)
    requires var listed := l[j + j + 1 - i]; listed in hdr && hdr[listed].free
    ensures l[j] in hdr && l[j + 1] in hdr && l[j] != l[j + 1] && l[j + j + 1 - i] in f
    ensures (forall x | x in l :: x in hdr) && 0 !in hdr && FreeList(hdr, f) && (forall x | x in f :: x in l)
    ensures hdr[l[j]].free && hdr[l[j + 1]].free && hdr[l[j + 1]].next == At(l, j + 2)
    ensures j + 2 < |l| ==> l[j + 2] in hdr && l[j + 2] != l[j] && l[j + 2] != l[j + 1]
  {
    Distinct(hdr, l, end);
    assert BlockOk(hdr, l, end, j + 1);
    assert l[j + j + 1 - i] in l;
  }

  /** The unlinking of one element of the free list, followed by the merge of two blocks. */
  ghost predicate MergePath(hdr0: Headers, hdr1: Headers, hdr2: Headers, l: seq<nat>, f: seq<nat>, f': seq<nat>,
                            i: nat, j: nat) {
    && j + 1 < |l| && (i == j || i == j + 1)
    && (forall x | x in l :: x in hdr0) && hdr0[l[j]].free && hdr0[l[j + 1]].free
    && LinksOnly(hdr0, hdr1, f) && FreeList(hdr1, f') && (forall x :: x in f' <==> x in f && x != l[j + j + 1 - i])
    && Absorbed(hdr1, hdr2, l[j], l[j + 1])
  }

  lemma LinksFacts(hdr: Headers, hdr': Headers, f: seq<nat>)
    requires LinksOnly(hdr, hdr', f)
    ensures hdr'.Keys == hdr.Keys && forall x | x in hdr :: hdr'[x].next == hdr[x].next
  {
  }

  lemma MergePathIs(hdr0: Headers, hdr1: Headers, hdr2: Headers, l: seq<nat>, f: seq<nat>, f': seq<nat>, i: nat, j: nat)
    requires j + 1 < |l| && (i == j || i == j + 1)
    requires (forall x | x in l :: x in hdr0 && x in hdr1) && hdr0[l[j]].free && hdr0[l[j + 1]].free
    requires LinksOnly(hdr0, hdr1, f) && FreeList(hdr1, f')
    requires (forall x :: x in f' <==> x in f && x != l[j + j + 1 - i])
    requires Absorbed(hdr1, hdr2, l[j], l[j + 1])
    ensures MergePath(hdr0, hdr1, hdr2, l, f, f', i, j)
  {
  }

  lemma MergeHeapList(hdr0: Headers, hdr1: Headers, hdr2: Headers, l: seq<nat>, f: seq<nat>, f': seq<nat>,
                      end: nat, i: nat, j: nat)
    requires Pending(hdr0, l, f, end, i) && MergePath(hdr0, hdr1, hdr2, l, f, f', i, j)
    ensures HeapList(hdr2, l[..j + 1] + l[j + 2..], end)
  {
    Distinct(hdr0, l, end);
    HeapListFrame(hdr0, hdr1, l, end);
    assert BlockOk(hdr1, l, end, j + 1);
    Merged(hdr1, hdr2, l, end, j);
  }

  lemma MergeApart(hdr: Headers, hdr': Headers, l: seq<nat>, i: nat, j: nat)
    requires j + 1 < |l| && (i == j || i == j + 1)
    requires (forall x | x in l :: x in hdr && x in hdr' && hdr'[x].free == hdr[x].free)
    requires forall k: nat {:trigger Apart(hdr, l, k)} | k + 1 < |l| && k != i && k + 1 != i :: Apart(hdr, l, k)
    ensures var l' := l[..j + 1] + l[j + 2..];
      forall k: nat {:trigger Apart(hdr', l', k)} | k + 1 < |l'| && k != j && k + 1 != j :: Apart(hdr', l', k)
  {
    var l' := l[..j + 1] + l[j + 2..];
    forall k: nat | k + 1 < |l'| && k != j && k + 1 != j
      ensures Apart(hdr', l', k)
    {
      var q := if k < j then k else k + 1;
      assert l'[k] == l[q] && l'[k + 1] == l[q + 1] && l[q] in l && l[q + 1] in l;
      assert Apart(hdr, l, q);
    }
  }

  lemma {:induction false} MergedMembers(l: seq<nat>, j: nat)
    requires j + 1 < |l| && NoRepeat(l)
    ensures forall x :: x in l[..j + 1] + l[j + 2..] <==> x in l && x != l[j + 1]
  {
    var l' := l[..j + 1] + l[j + 2..];
    forall x | x in l && x != l[j + 1]
      ensures x in l'
    {
      var k := IndexOf(l, x);
      assert l'[if k <= j then k else k - 1] == x;
    }
  }

  lemma MergeFrame(hdr0: Headers, hdr1: Headers, hdr2: Headers, l: seq<nat>, f: seq<nat>, j: nat)
    requires j + 1 < |l| && NoRepeat(l) && 0 !in hdr0 && (forall x | x in l :: x in hdr0)
    requires (forall x | x in f :: x in l)
    requires LinksOnly(hdr0, hdr1, f) && Absorbed(hdr1, hdr2, l[j], l[j + 1])
    requires hdr0[l[j + 1]].next in l || hdr0[l[j + 1]].next == 0
    ensures MergedOnly(hdr0, hdr2, l, l[..j + 1] + l[j + 2..], j)
  {
    MergedMembers(l, j);
    forall x | x !in Blocks(l)
      ensures (x in hdr0 <==> x in hdr2) && (x in hdr0 ==> hdr2[x] == hdr0[x])
    {
      assert x in hdr0 ==> hdr1[x] == hdr0[x];
    }
  }

  lemma MergeEffect(hdr0: Headers, hdr1: Headers, hdr2: Headers, l: seq<nat>, f: seq<nat>, f': seq<nat>,
                    end: nat, i: nat, j: nat)
    requires Pending(hdr0, l, f, end, i) && MergePath(hdr0, hdr1, hdr2, l, f, f', i, j)
    ensures 0 !in hdr2 && FreeList(hdr2, f')
    ensures MergedOnly(hdr0, hdr2, l, l[..j + 1] + l[j + 2..], j)
  {
    hide MergedOnly;
    Distinct(hdr0, l, end);
    assert hdr0[l[j + 1]].next in l || hdr0[l[j + 1]].next == 0 by { assert BlockOk(hdr0, l, end, j + 1); }
    MergeFrame(hdr0, hdr1, hdr2, l, f, j);
    FreeListFrame(hdr1, hdr2, f');
  }

  lemma MergeStep(hdr0: Headers, hdr1: Headers, hdr2: Headers, l: seq<nat>, f: seq<nat>, f': seq<nat>, end: nat,
                  i: nat, j: nat)
    requires Pending(hdr0, l, f, end, i) && MergePath(hdr0, hdr1, hdr2, l, f, f', i, j)
    ensures var l' := l[..j + 1] + l[j + 2..];
      Pending(hdr2, l', f', end, j) && MergedOnly(hdr0, hdr2, l, l', j)
  {
    hide HeapList, FreeList, Absorbed, LinksOnly;
    MergeHeapList(hdr0, hdr1, hdr2, l, f, f', end, i, j);
    MergeEffect(hdr0, hdr1, hdr2, l, f, f', end, i, j);
    MergeApart(hdr0, hdr2, l, i, j);
  }

  predicate Free(hdr: Headers, b: nat) {
    b in hdr && hdr[b].free
  }

  ghost predicate LiveIn(hdr: Headers, l: seq<nat>, b: nat) {
    b in l && b in hdr && !hdr[b].free
  }

  /** The same live blocks with the same sizes, among at most the same blocks; no header outside them changed. */
  ghost predicate LiveKept(hdr: Headers, hdr': Headers, l: seq<nat>, l': seq<nat>) {
    && (forall x | x in l' :: x in l)
    && (forall x :: LiveIn(hdr, l, x) <==> LiveIn(hdr', l', x))
    && (forall x | LiveIn(hdr, l, x) :: x in hdr' && hdr'[x].size == hdr[x].size)
    && hdr'.Keys == hdr.Keys && OnlyHeaders(hdr, hdr', Blocks(l))
  }

  ghost predicate RightClear(hdr: Headers, l: seq<nat>, i: nat) {
    i + 1 < |l| ==> !Free(hdr, l[i + 1])
  }

  ghost predicate LeftClear(hdr: Headers, l: seq<nat>, i: nat) {
    0 < i <= |l| ==> !Free(hdr, l[i - 1])
  }

  lemma PendingLinks(hdr: Headers, l: seq<nat>, f: seq<nat>, end: nat, i: nat)
    requires Pending(hdr, l, f, end, i)
    ensures forall x | x in l :: x in hdr && x != 0
    ensures hdr[l[i]].next == At(l, i + 1) && hdr[l[i]].prev == At(l, i - 1)
    ensures i + 1 < |l| ==> l[i + 1] != l[i]
    ensures i + 2 < |l| ==> Apart(hdr, l, i + 1)
    ensures 2 <= i ==> Apart(hdr, l, i - 2)
    ensures NoRepeat(l)
  {
    Distinct(hdr, l, end);
    assert BlockOk(hdr, l, end, i);
  }

  /** A merge of two free blocks keeps every live block. */
  lemma MergeKeeps(hdr: Headers, hdr': Headers, l: seq<nat>, l': seq<nat>, j: nat)
    requires j + 1 < |l| && MergedOnly(hdr, hdr', l, l', j) && Free(hdr, l[j]) && Free(hdr, l[j + 1])
    ensures LiveKept(hdr, hdr', l, l')
  {
  }

  lemma PendingFront(hdr: Headers, l: seq<nat>, f: seq<nat>, end: nat, j: nat)
    requires Pending(hdr, l, f, end, j)
    ensures 0 !in hdr && j < |l| && l[j] in hdr && At(f, 0) != l[j]
    ensures (At(f, 0) != 0 ==> At(f, 0) in hdr && At(f, 0) in l)
  {
    if f != [] { assert NodeOk(hdr, f, 0) && f[0] in f; }
  }

  lemma PushStep(hdr: Headers, hdr': Headers, l: seq<nat>, f: seq<nat>, end: nat, j: nat)
    requires Pending(hdr, l, f, end, j) && RightClear(hdr, l, j) && LeftClear(hdr, l, j) && hdr'.Keys == hdr.Keys
    requires forall x | x in hdr :: hdr'[x] == hdr[x].(
      nextFree := if x == l[j] then At(f, 0) else hdr[x].nextFree,
      prevFree := if x == l[j] then 0 else if x == At(f, 0) then l[j] else hdr[x].prevFree)
    ensures Coherent(hdr', l, [l[j]] + f, end) && LiveKept(hdr, hdr', l, l)
  {
    PendingLinks(hdr, l, f, end, j);
    HeapListFrame(hdr, hdr', l, end);
    Pushed(hdr, hdr', f, l[j]);
    forall k: nat | k + 1 < |l|
      ensures Apart(hdr', l, k)
    {
      if k != j && k + 1 != j { assert Apart(hdr, l, k); }
    }
    assert f != [] ==> f[0] in f;
  }

  // ----- freeing ----------------------------------------------------------------------

  /** Exactly `b` stopped being live; every other live block keeps its size, and no header outside the old blocks
      changed. */
  ghost predicate Freed(hdr: Headers, hdr': Headers, l: seq<nat>, l': seq<nat>, b: nat) {
    && (forall x | x in l' :: x in l)
    && (forall x :: LiveIn(hdr', l', x) <==> LiveIn(hdr, l, x) && x != b)
    && (forall x | LiveIn(hdr', l', x) :: x in hdr && hdr'[x].size == hdr[x].size)
    && hdr'.Keys == hdr.Keys && OnlyHeaders(hdr, hdr', Blocks(l))
  }

  /** Freeing `b` merges the last block away: its successor is last and free, or it is last itself and its
      predecessor is free. */
  predicate TailAbsorbed(hdr: Headers, b: nat) {
    && b in hdr
    && var next, prev := hdr[b].next, hdr[b].prev;
       if next == 0 then prev != 0 && Free(hdr, prev) else Free(hdr, next) && hdr[next].next == 0
  }

  lemma StartFree(hdr: Headers, l: seq<nat>, f: seq<nat>, end: nat, i: nat)
    requires Coherent(hdr, l, f, end) && i < |l|
    ensures l[i] in hdr && hdr[l[i]].size != 0 && HEAP_START <= l[i] < end
    ensures !hdr[l[i]].free ==> Pending(hdr[l[i] := hdr[l[i]].(free := true)], l, f, end, i)
  {
    Distinct(hdr, l, end);
    assert BlockOk(hdr, l, end, i);
    if !hdr[l[i]].free {
      var hdr' := hdr[l[i] := hdr[l[i]].(free := true)];
      HeapListFrame(hdr, hdr', l, end);
      FreeListFrame(hdr, hdr', f);
      forall j: nat | j + 1 < |l| && j != i && j + 1 != i
        ensures Apart(hdr', l, j)
      {
        assert Apart(hdr, l, j);
      }
    }
  }

  lemma PendingIndex(hdr: Headers, l: seq<nat>, f: seq<nat>, end: nat, i: nat)
    requires Pending(hdr, l, f, end, i)
    ensures i < |l|
  {
  }

  lemma KeptBlocks(hdr: Headers, hdr': Headers, l: seq<nat>, l': seq<nat>)
    requires LiveKept(hdr, hdr', l, l')
    ensures Blocks(l') <= Blocks(l)
  {
  }

  lemma LiveKeptTrans(hdr1: Headers, hdr2: Headers, hdr3: Headers, l1: seq<nat>, l2: seq<nat>, l3: seq<nat>)
    requires LiveKept(hdr1, hdr2, l1, l2) && LiveKept(hdr2, hdr3, l2, l3)
    ensures LiveKept(hdr1, hdr3, l1, l3)
  {
  }

  lemma FreeEffect(hdr0: Headers, hdr1: Headers, hdr': Headers, l: seq<nat>, l': seq<nat>, i: nat)
    requires i < |l| && LiveIn(hdr0, l, l[i]) && hdr1 == hdr0[l[i] := hdr0[l[i]].(free := true)]
    requires LiveKept(hdr1, hdr', l, l')
    ensures Freed(hdr0, hdr', l, l', l[i])
  {
    assert forall x :: LiveIn(hdr1, l, x) <==> LiveIn(hdr0, l, x) && x != l[i];
  }

  lemma LastAt(l: seq<nat>)
    requires l != []
    ensures At(l, |l| - 1) == l[|l| - 1]
  {
  }

  lemma SameKeys(hdr: Headers, hdr': Headers, l: seq<nat>, l': seq<nat>, b: nat)
    requires Freed(hdr, hdr', l, l', b)
    ensures hdr'.Keys == hdr.Keys
  {
  }

  /** The heap list after block `i` was merged with its free neighbours. */
  function Coalesced(hdr: Headers, l: seq<nat>, i: nat): seq<nat>
    requires i < |l|
  {
    var r := if i + 1 < |l| && Free(hdr, l[i + 1]) then Without(l, i + 1) else l;
    if i > 0 && Free(hdr, l[i - 1]) then Without(r, i) else r
  }

  lemma WithoutLast(l: seq<nat>, j: nat)
    requires 1 <= j < |l|
    ensures |Without(l, j)| == |l| - 1 && Without(l, j)[j - 1] == l[j - 1]
    ensures Without(l, j)[|l| - 2] == if j + 1 == |l| then l[j - 1] else l[|l| - 1]
  {
  }

  lemma LastMerged(l: seq<nat>, i: nat, right: bool, left: bool)
    requires i < |l| && (right ==> i + 1 < |l|) && (left ==> 0 < i)
    ensures var r := if right then Without(l, i + 1) else l;
      var m := if left then Without(r, i) else r;
      && m != []
      && m[|m| - 1] == (if left && ((right && i + 2 == |l|) || i + 1 == |l|) then l[i - 1]
                        else if right && i + 2 == |l| then l[i]
                        else l[|l| - 1])
  {
    hide Without;
    if right {
      WithoutLast(l, i + 1);
      WithoutFront(l, i + 1);
    }
    var r := if right then Without(l, i + 1) else l;
    if left { WithoutLast(r, i); }
  }

  lemma LastCoalesced(hdr: Headers, l: seq<nat>, i: nat)
    requires i < |l| && NoRepeat(l)
    ensures var l', n := Coalesced(hdr, l, i), |l|;
      l' != [] && (l'[|l'| - 1] != l[n - 1] <==>
        (i + 2 == n && Free(hdr, l[i + 1])) || (i + 1 == n && i > 0 && Free(hdr, l[i - 1])))
  {
    hide Without, Free;
    LastMerged(l, i, i + 1 < |l| && Free(hdr, l[i + 1]), i > 0 && Free(hdr, l[i - 1]));
  }

  lemma WithoutFront(l: seq<nat>, j: nat)
    requires j < |l|
    ensures |Without(l, j)| == |l| - 1 && forall k | 0 <= k < j :: Without(l, j)[k] == l[k]
  {
  }

  lemma FreeTail(hdr: Headers, hdr1: Headers, l: seq<nat>, end: nat, i: nat)
    requires HeapList(hdr, l, end) && 0 !in hdr && i < |l| && l[i] in hdr
    requires hdr1 == hdr[l[i] := hdr[l[i]].(free := true)]
    ensures var l' := Coalesced(hdr1, l, i);
      l' != [] && (l'[|l'| - 1] == l[|l| - 1] <==> !TailAbsorbed(hdr, l[i]))
  {
    Distinct(hdr, l, end);
    assert BlockOk(hdr, l, end, i);
    if i + 1 < |l| { assert BlockOk(hdr, l, end, i + 1); }
    LastCoalesced(hdr1, l, i);
    hide Coalesced, HeapList;
    assert i > 0 ==> (Free(hdr1, l[i - 1]) <==> Free(hdr, l[i - 1]));
    assert i + 1 < |l| ==> (Free(hdr1, l[i + 1]) <==> Free(hdr, l[i + 1]));
  }

  /** Every header that `malloc` or `free` stores to (a block, the end of the used range, or a place inside a
      free block) lies outside the payload of every live block. */
  lemma HeaderStoresMiss(hdr: Headers, l: seq<nat>, f: seq<nat>, end: nat, x: nat, h: nat, b: nat)
    requires Coherent(hdr, l, f, end) && LiveIn(hdr, l, x)
    requires h in l || h == end || (b in f && b in hdr && b < h && h + HEADER <= End(hdr, b))
    ensures h + HEADER <= x + HEADER || End(hdr, x) <= h
  {
    Distinct(hdr, l, end);
    if h in l && h != x {
      PayloadsDisjoint(hdr, l, end, x, h);
    } else if h !in l && h != end {
      PayloadsDisjoint(hdr, l, end, x, b);
    }
  }

  // ----- payloads ---------------------------------------------------------------------

  /** The payload bytes of block `b`. */
  ghost function Payload(hdr: Headers, data: seq<int>, b: nat): seq<int> {
    if HEAP_START <= b && b in hdr && End(hdr, b) <= HEAP_START + |data|
    then data[b + HEADER - HEAP_START..End(hdr, b) - HEAP_START] else []
  }

  /** The payload of every live block of `l` is the same in both states. */
  ghost predicate Kept(hdr: Headers, data: seq<int>, hdr': Headers, data': seq<int>, l: seq<nat>) {
    forall x | LiveIn(hdr, l, x) :: Payload(hdr', data', x) == Payload(hdr, data, x)
  }

  /** Where a header store does no harm: at a block, at the end of the used range, or inside a free block. */
  ghost predicate Harmless(hdr: Headers, l: seq<nat>, f: seq<nat>, end: nat, h: nat) {
    h in l || h == end || h == 0 || exists b :: b in f && b in hdr && b < h && h + HEADER <= End(hdr, b)
  }

  lemma HarmlessMiss(hdr: Headers, l: seq<nat>, f: seq<nat>, end: nat, x: nat, h: nat)
    requires Coherent(hdr, l, f, end) && LiveIn(hdr, l, x) && Harmless(hdr, l, f, end, h)
    ensures h + HEADER <= x + HEADER || End(hdr, x) <= h
  {
    if h != 0 {
      if h in l || h == end {
        HeaderStoresMiss(hdr, l, f, end, x, h, 0);
      } else {
        var c :| c in f && c in hdr && c < h && h + HEADER <= End(hdr, c);
        HeaderStoresMiss(hdr, l, f, end, x, h, c);
      }
    }
  }

  /** Harmless header stores leave every live payload alone. */
  lemma StoresMiss(hdr: Headers, l: seq<nat>, f: seq<nat>, end: nat, data: seq<int>, data': seq<int>,
                   s: set<nat>, x: nat)
    requires Coherent(hdr, l, f, end) && LiveIn(hdr, l, x) && OnlyAt(data, data', s)
    requires forall h | h in s :: Harmless(hdr, l, f, end, h)
    ensures Payload(hdr, data', x) == Payload(hdr, data, x)
  {
    forall k: nat | k < |data| && x + HEADER <= HEAP_START + k < End(hdr, x)
      ensures data'[k] == data[k]
    {
      forall h | h in s
        ensures !(h <= HEAP_START + k < h + HEADER)
      {
        HarmlessMiss(hdr, l, f, end, x, h);
      }
      assert Outside(s, k);
    }
  }

  lemma StoresKeep(hdr: Headers, hdr': Headers, l: seq<nat>, f: seq<nat>, end: nat, data: seq<int>,
                   data': seq<int>, s: set<nat>)
    requires Coherent(hdr, l, f, end) && OnlyAt(data, data', s) && (forall h | h in s :: Harmless(hdr, l, f, end, h))
    requires forall x | LiveIn(hdr, l, x) :: x in hdr' && hdr'[x].size == hdr[x].size
    ensures Kept(hdr, data, hdr', data', l)
  {
    hide Coherent, OnlyAt, Harmless, Payload;
    forall x | LiveIn(hdr, l, x)
      ensures Payload(hdr', data', x) == Payload(hdr, data, x)
    {
      StoresMiss(hdr, l, f, end, data, data', s, x);
      SameSizePayload(hdr, hdr', data', x);
    }
  }

  /** Reusing a block changes no live payload. */
  lemma TakenKeeps(hdr: Headers, hdr': Headers, l: seq<nat>, l': seq<nat>, f: seq<nat>, end: nat, data: seq<int>,
                   data': seq<int>, b: nat, n: nat, aligned: nat)
    requires Coherent(hdr, l, f, end) && Taken(hdr, hdr', l, l', b, n, aligned)
    requires OnlyAt(data, data', Blocks(l) + {n, 0})
    ensures Kept(hdr, data, hdr', data', l)
  {
    assert b in f;
    assert Harmless(hdr, l, f, end, n);
    hide OnlyAt, Coherent;
    StoresKeep(hdr, hdr', l, f, end, data, data', Blocks(l) + {n, 0});
  }

  /** Freeing a block changes no payload that stays live. */
  lemma FreedKeeps(hdr: Headers, hdr': Headers, l: seq<nat>, l': seq<nat>, f: seq<nat>, end: nat, data: seq<int>,
                   data': seq<int>, b: nat)
    requires Coherent(hdr, l, f, end) && Freed(hdr, hdr', l, l', b) && OnlyAt(data, data', Blocks(l))
    ensures Kept(hdr', data', hdr, data, l')
  {
    hide OnlyAt, Coherent, Payload;
    forall x | LiveIn(hdr', l', x)
      ensures Payload(hdr, data, x) == Payload(hdr', data', x)
    {
      StoresMiss(hdr, l, f, end, data, data', Blocks(l), x);
      SameSizePayload(hdr, hdr', data', x);
    }
  }

  // ----- the store through the tail ----------------------------------------------------

  /** The memory after `heap_tail->next = end`. */
  function TailStored(data: seq<int>, tail: nat, end: nat): (r: seq<int>)
    ensures |r| == |data|
  {
    if tail == 0 then data else Store(data, tail + NEXT, end)
  }

  /** When the store through the tail does no harm: the tail is right, the last block is free, or the word is there
      already. */
  ghost predicate Spared(hdr: Headers, data: seq<int>, l: seq<nat>, tail: nat, end: nat) {
    l == [] || tail == l[|l| - 1] || !LiveIn(hdr, l, l[|l| - 1]) || WordAt(data, tail + NEXT, end)
  }

  /** A live payload that ends before the store is unchanged. */
  lemma StoreBehind(hdr: Headers, data: seq<int>, a: nat, v: nat, x: nat)
    requires x in hdr && End(hdr, x) <= a
    ensures Payload(hdr, Store(data, a, v), x) == Payload(hdr, data, x)
  {
  }

  lemma StoreSame(data: seq<int>, a: nat, v: nat)
    requires WordAt(data, a, v)
    ensures Store(data, a, v) == data
  {
  }

  lemma StoreInside(hdr: Headers, data: seq<int>, a: nat, v: nat, x: nat)
    requires x in hdr && HEAP_START <= x && x + HEADER <= a && a + 4 <= End(hdr, x) <= HEAP_START + |data|
    ensures Payload(hdr, Store(data, a, v), x) == Payload(hdr, data, x) ==> WordAt(data, a, v)
  {
    hide Store, Word;
    var p, p', o := Payload(hdr, data, x), Payload(hdr, Store(data, a, v), x), a - (x + HEADER);
    SliceOfSlice(data, x + HEADER - HEAP_START, End(hdr, x) - HEAP_START, o);
    SliceOfSlice(Store(data, a, v), x + HEADER - HEAP_START, End(hdr, x) - HEAP_START, o);
    StoredWord(data, a, v);
    assert p[o..o + 4] == data[a - HEAP_START..a + 4 - HEAP_START];
    assert p'[o..o + 4] == Word(v);
  }

  lemma SliceOfSlice(s: seq<int>, i: nat, j: nat, o: nat)
    requires i <= j <= |s| && o + 4 <= j - i
    ensures s[i..j][o..o + 4] == s[i + o..i + o + 4]
  {
    var t, u := s[i..j][o..o + 4], s[i + o..i + o + 4];
    forall k | 0 <= k < 4
      ensures t[k] == u[k]
    {
      assert t[k] == s[i..j][o + k] == s[i + o + k];
    }
  }

  lemma StoredWord(data: seq<int>, a: nat, v: nat)
    requires HEAP_START <= a && a + 4 <= HEAP_START + |data|
    ensures Store(data, a, v)[a - HEAP_START..a + 4 - HEAP_START] == Word(v)
  {
  }

  lemma RightKeeps(hdr: Headers, l: seq<nat>, f: seq<nat>, end: nat, data: seq<int>, a: nat, x: nat)
    requires Coherent(hdr, l, f, end) && LiveIn(hdr, l, x) && a in l
    ensures Payload(hdr, Store(data, a + NEXT, end), x) == Payload(hdr, data, x)
  {
    hide Coherent, OnlyAt, Store, Payload;
    OnlyNothing(data, {a});
    StoreOnly(data, data, {a}, a, NEXT, end);
    StoresMiss(hdr, l, f, end, data, Store(data, a + NEXT, end), {a}, x);
  }

  lemma FreeLastKeeps(hdr: Headers, l: seq<nat>, f: seq<nat>, end: nat, data: seq<int>, tail: nat, x: nat)
    requires Coherent(hdr, l, f, end) && LiveIn(hdr, l, x) && x != l[|l| - 1] && l[|l| - 1] <= tail
    ensures Payload(hdr, Store(data, tail + NEXT, end), x) == Payload(hdr, data, x)
  {
    Ordered(hdr, l, end, IndexOf(l, x), |l| - 1);
    hide Coherent, Payload, Store;
    StoreBehind(hdr, data, tail + NEXT, end, x);
  }

  lemma LastBlock(hdr: Headers, l: seq<nat>, f: seq<nat>, end: nat)
    requires Coherent(hdr, l, f, end) && l != []
    ensures l[|l| - 1] in hdr && HEAP_START <= l[|l| - 1] && End(hdr, l[|l| - 1]) == end
  {
    UpToLast(hdr, l, end, |l| - 1);
    assert BlockOk(hdr, l, end, |l| - 1);
  }

  lemma SparedKeeps(hdr: Headers, l: seq<nat>, f: seq<nat>, end: nat, data: seq<int>, tail: nat)
    requires Coherent(hdr, l, f, end) && Near(hdr, l, end, tail) && Spared(hdr, data, l, tail, end)
    ensures Kept(hdr, data, hdr, TailStored(data, tail, end), l)
  {
    hide Coherent, Payload, Store, WordAt;
    if l != [] && tail != 0 {
      var last, data' := l[|l| - 1], TailStored(data, tail, end);
      forall x | LiveIn(hdr, l, x)
        ensures Payload(hdr, data', x) == Payload(hdr, data, x)
      {
        if tail == last {
          RightKeeps(hdr, l, f, end, data, last, x);
        } else if WordAt(data, tail + NEXT, end) {
          StoreSame(data, tail + NEXT, end);
        } else {
          FreeLastKeeps(hdr, l, f, end, data, tail, x);
        }
      }
    }
  }

  /** The store through the tail keeps every live payload exactly when it is spared. */
  lemma TailStoreMeaning(hdr: Headers, l: seq<nat>, f: seq<nat>, end: nat, data: seq<int>, tail: nat)
    requires Coherent(hdr, l, f, end) && Near(hdr, l, end, tail) && end <= HEAP_START + |data|
    ensures Kept(hdr, data, hdr, TailStored(data, tail, end), l) <==> Spared(hdr, data, l, tail, end)
  {
    hide Coherent, Payload, Store, WordAt;
    if Spared(hdr, data, l, tail, end) {
      SparedKeeps(hdr, l, f, end, data, tail);
    } else {
      LastBlock(hdr, l, f, end);
      StoreInside(hdr, data, tail + NEXT, end, l[|l| - 1]);
    }
  }

  lemma KeptItself(hdr: Headers, data: seq<int>, l: seq<nat>)
    ensures Kept(hdr, data, hdr, data, l)
  {
  }

  lemma KeptTrans(hdr1: Headers, data1: seq<int>, hdr2: Headers, data2: seq<int>, hdr3: Headers, data3: seq<int>,
                  l: seq<nat>)
    requires Kept(hdr2, data2, hdr3, data3, l) && (forall x :: LiveIn(hdr1, l, x) <==> LiveIn(hdr2, l, x))
    ensures Kept(hdr1, data1, hdr2, data2, l) <==> Kept(hdr1, data1, hdr3, data3, l)
  {
    hide Payload;
    if Kept(hdr1, data1, hdr3, data3, l) {
      forall x | LiveIn(hdr1, l, x)
        ensures Payload(hdr2, data2, x) == Payload(hdr1, data1, x)
      {
        assert LiveIn(hdr2, l, x);
      }
    }
  }

  /** Exactly `b` became live; every other live block keeps its size. */
  ghost predicate Allocated(hdr: Headers, hdr': Headers, l: seq<nat>, l': seq<nat>, b: nat) {
    && !LiveIn(hdr, l, b)
    && (forall x :: LiveIn(hdr', l', x) <==> LiveIn(hdr, l, x) || x == b)
    && (forall x | LiveIn(hdr, l, x) :: x in hdr' && hdr'[x].size == hdr[x].size)
  }

  /** `nb` replaced `b` among the live blocks; every other live block keeps its size. */
  ghost predicate Moved(hdr: Headers, hdr': Headers, l: seq<nat>, l': seq<nat>, b: nat, nb: nat) {
    && !LiveIn(hdr, l, nb)
    && (forall x :: LiveIn(hdr', l', x) <==> (LiveIn(hdr, l, x) && x != b) || x == nb)
    && (forall x | LiveIn(hdr, l, x) && x != b :: x in hdr' && hdr'[x].size == hdr[x].size)
  }

  lemma TakenFacts(hdr: Headers, hdr': Headers, l: seq<nat>, l': seq<nat>, b: nat, n: nat, aligned: nat)
    requires Taken(hdr, hdr', l, l', b, n, aligned)
    ensures LiveIn(hdr', l', b) && aligned <= hdr'[b].size
  {
  }

  lemma AllocatedFrom(hdr: Headers, hdr': Headers, l: seq<nat>, l': seq<nat>, b: nat, n: nat, aligned: nat)
    requires Made(hdr, hdr', l, l', b, aligned) || Taken(hdr, hdr', l, l', b, n, aligned)
    ensures Allocated(hdr, hdr', l, l', b)
  {
  }

  lemma MoveRanges(hdr: Headers, l: seq<nat>, f: seq<nat>, end: nat, b: nat, nb: nat)
    requires Coherent(hdr, l, f, end) && LiveIn(hdr, l, b) && LiveIn(hdr, l, nb) && b != nb
    ensures HEAP_START <= b && End(hdr, b) <= end && HEAP_START <= nb && End(hdr, nb) <= end
    ensures End(hdr, b) <= nb || End(hdr, nb) <= b
  {
    Distinct(hdr, l, end);
    PayloadsDisjoint(hdr, l, end, b, nb);
  }

  /** Block `b` lies apart from the live block `nb`. */
  ghost predicate Disjoint(hdr: Headers, b: nat, nb: nat) {
    b in hdr && nb in hdr && HEAP_START <= b && (End(hdr, b) <= nb || End(hdr, nb) <= b)
  }

  /** The contents of `b` are the start of those of `nb`, and every other live block has kept its contents. */
  ghost predicate Preserved(hdr: Headers, data: seq<int>, l: seq<nat>, hdr': Headers, data': seq<int>, b: nat,
                            nb: nat) {
    && Payload(hdr, data, b) <= Payload(hdr', data', nb)
    && forall x | LiveIn(hdr, l, x) && x != b :: Payload(hdr', data', x) == Payload(hdr, data, x)
  }

  /** Only the `n` bytes at `dst` may differ. */
  ghost predicate WritesIn(data: seq<int>, data': seq<int>, dst: nat, n: nat) {
    |data'| == |data| && forall k: nat | k < |data| && !(dst <= HEAP_START + k < dst + n) :: data'[k] == data[k]
  }

  /** Writing into the payload of a block, or behind the list, touches no header of the list. */
  lemma PayloadWrite(hdr: Headers, l: seq<nat>, f: seq<nat>, end: nat, data: seq<int>, data': seq<int>, b: nat, n: nat)
    requires Coherent(hdr, l, f, end) && Backed(hdr, data, Blocks(l)) && WritesIn(data, data', b + HEADER, n)
    requires b == end || (b in l && b in hdr && n <= hdr[b].size)
    ensures Backed(hdr, data', Blocks(l))
  {
    hide HeaderAt;
    forall x | x in l
      ensures x in hdr && HeaderAt(data', x, hdr[x])
    {
      assert x in Blocks(l);
      ToEnd(hdr, l, end, IndexOf(l, x));
      if b != end && x != b { PayloadsDisjoint(hdr, l, end, x, b); }
      HeaderSame(data, data', x, hdr[x]);
    }
  }

  /** What copying the contents of `b` into `nb` does. */
  lemma CopyEffect(hdr: Headers, l: seq<nat>, data: seq<int>, data': seq<int>, b: nat, nb: nat)
    requires Disjoint(hdr, b, nb) && hdr[b].size <= hdr[nb].size && HEAP_START <= nb && |data'| == |data|
    requires End(hdr, b) <= HEAP_START + |data| && End(hdr, nb) <= HEAP_START + |data|
    requires var o := nb + HEADER - HEAP_START;
      data'[o..o + hdr[b].size] == data[b + HEADER - HEAP_START..End(hdr, b) - HEAP_START]
    requires WritesIn(data, data', nb + HEADER, hdr[b].size)
    requires forall x | LiveIn(hdr, l, x) && x != nb :: Disjoint(hdr, x, nb)
    ensures Payload(hdr, data, b) <= Payload(hdr, data', nb)
    ensures forall x | LiveIn(hdr, l, x) && x != nb :: Payload(hdr, data', x) == Payload(hdr, data, x)
  {
    SlicePrefix(data', nb + HEADER - HEAP_START, hdr[b].size, End(hdr, nb) - HEAP_START);
  }

  /** The whole move: allocate, copy, free. */
  lemma MoveEffect(hdr0: Headers, mid: Headers, hdr2: Headers, l0: seq<nat>, l1: seq<nat>, l2: seq<nat>,
                   data0: seq<int>, data1: seq<int>, data2: seq<int>, data3: seq<int>, b: nat, nb: nat)
    requires LiveIn(hdr0, l0, b) && !LiveIn(hdr0, l0, nb) && Kept(hdr0, data0, mid, data1, l0)
    requires forall x | LiveIn(hdr0, l0, x) :: LiveIn(mid, l1, x)
    requires Payload(mid, data1, b) <= Payload(mid, data2, nb)
    requires forall x | LiveIn(mid, l1, x) && x != nb :: Payload(mid, data2, x) == Payload(mid, data1, x)
    requires forall x | LiveIn(mid, l1, x) && x != b :: LiveIn(hdr2, l2, x)
    requires Kept(hdr2, data3, mid, data2, l2) && Payload(hdr2, data3, nb) == Payload(mid, data2, nb)
    ensures Preserved(hdr0, data0, l0, hdr2, data3, b, nb)
  {
    hide Payload;
    forall x | LiveIn(hdr0, l0, x) && x != b
      ensures Payload(hdr2, data3, x) == Payload(hdr0, data0, x)
    {
      assert LiveIn(mid, l1, x) && LiveIn(hdr2, l2, x);
    }
  }

  /** What is preserved with respect to `data'` is preserved with respect to `data` exactly when the two agree on
      the live blocks. */
  lemma PreservedIff(hdr0: Headers, data: seq<int>, data': seq<int>, l0: seq<nat>, hdr2: Headers,
                     data2: seq<int>, b: nat, nb: nat)
    requires LiveIn(hdr0, l0, b) && |data'| == |data| && Preserved(hdr0, data', l0, hdr2, data2, b, nb)
    ensures Preserved(hdr0, data, l0, hdr2, data2, b, nb) <==> Kept(hdr0, data, hdr0, data', l0)
  {
    assert |Payload(hdr0, data, b)| == |Payload(hdr0, data', b)|;
    hide Payload;
    if Preserved(hdr0, data, l0, hdr2, data2, b, nb) {
      forall x | LiveIn(hdr0, l0, x)
        ensures Payload(hdr0, data', x) == Payload(hdr0, data, x)
      {
      }
    }
  }

  lemma RightTailSpared(hdr: Headers, data: seq<int>, l: seq<nat>, tail: nat, end: nat)
    ensures tail == At(l, |l| - 1) ==> Spared(hdr, data, l, tail, end)
  {
  }

  lemma KeptPayload(hdr: Headers, data: seq<int>, hdr': Headers, data': seq<int>, l: seq<nat>, x: nat)
    requires Kept(hdr, data, hdr', data', l) && LiveIn(hdr, l, x)
    ensures Payload(hdr', data', x) == Payload(hdr, data, x)
  {
  }

  lemma FreedLive(hdr: Headers, hdr': Headers, l: seq<nat>, l': seq<nat>, b: nat)
    requires Freed(hdr, hdr', l, l', b)
    ensures forall x :: LiveIn(hdr', l', x) <==> LiveIn(hdr, l, x) && x != b
    ensures forall x | LiveIn(hdr', l', x) :: x in hdr && hdr'[x].size == hdr[x].size
  {
  }

  lemma MovedFrom(hdr0: Headers, mid: Headers, hdr2: Headers, l0: seq<nat>, l1: seq<nat>, l2: seq<nat>, b: nat, nb: nat)
    requires Allocated(hdr0, mid, l0, l1, nb) && Freed(mid, hdr2, l1, l2, b) && b != nb
    ensures Moved(hdr0, hdr2, l0, l2, b, nb)
  {
  }

  /** A move to a block behind the list: the old block is freed, the new one is on no list that tiles the heap. */
  ghost predicate LostMove(hdr: Headers, hdr': Headers, l: seq<nat>, l': seq<nat>, end: nat, end': nat, b: nat,
                           nb: nat) {
    && nb == end && (forall k :: !HeapList(hdr', k, end'))
    && (forall x :: LiveIn(hdr', l', x) <==> LiveIn(hdr, l, x) && x != b)
    && (forall x | LiveIn(hdr', l', x) :: x in hdr && hdr'[x].size == hdr[x].size)
  }

  lemma LostMeans(hdr: Headers, hdr': Headers, l: seq<nat>, l': seq<nat>, end: nat, end': nat, b: nat, nb: nat)
    requires LostMove(hdr, hdr', l, l', end, end', b, nb)
    ensures forall k :: !HeapList(hdr', k, end')
  {
  }

  /** No list tiles the heap after the free either: the list still ends before the new block. */
  lemma LostFrom(hdr0: Headers, mid: Headers, hdr2: Headers, l: seq<nat>, l2: seq<nat>, f2: seq<nat>, end: nat,
                 end': nat, b: nat)
    requires SameLive(hdr0, mid, l) && Freed(mid, hdr2, l, l2, b)
    requires (forall x :: LiveIn(hdr0, l, x) <==> LiveIn(mid, l, x))
    requires Coherent(hdr2, l2, f2, end) && HEAP_START < end < end'
    ensures LostMove(hdr0, hdr2, l, l2, end, end', b, end)
  {
    FromStart(hdr2, l2, end, 0);
    ToEnd(hdr2, l2, end, 0);
    forall k | HeapList(hdr2, k, end')
      ensures false
    {
      UniqueEnd(hdr2, l2, end, k, end');
    }
    assert forall x | LiveIn(hdr2, l2, x) :: LiveIn(mid, l, x) && LiveIn(hdr0, l, x);
  }

  /** The state between the `malloc` and the copy of a move: `b` was live and still is, `nb` is new, on the list or
      just behind it, and lies apart from every live block. */
  ghost predicate MoveReady(hdr0: Headers, hdr: Headers, l0: seq<nat>, l: seq<nat>, end: nat, curr: nat, b: nat,
                            nb: nat) {
    && LiveIn(hdr0, l0, b) && !LiveIn(hdr0, l0, nb) && (forall x | LiveIn(hdr0, l0, x) :: LiveIn(hdr, l, x))
    && nb in hdr && HEAP_START <= nb && hdr[b].size <= hdr[nb].size && End(hdr, b) <= curr && End(hdr, nb) <= curr
    && (forall x | LiveIn(hdr, l, x) && x != nb :: Disjoint(hdr, x, nb))
    && (LiveIn(hdr, l, nb) || nb == end)
  }

  /** What the list says about a live block and the block just allocated on the list. */
  lemma MoveListed(hdr0: Headers, mid: Headers, l0: seq<nat>, l1: seq<nat>, f: seq<nat>, end: nat, b: nat, nb: nat)
    requires LiveIn(hdr0, l0, b) && Allocated(hdr0, mid, l0, l1, nb) && Coherent(mid, l1, f, end)
    requires nb in mid && hdr0[b].size <= mid[nb].size
    ensures MoveReady(hdr0, mid, l0, l1, end, end, b, nb) && b != nb
  {
    hide Coherent;
    assert LiveIn(mid, l1, nb) && LiveIn(mid, l1, b);
    forall x | LiveIn(mid, l1, x) && x != nb
      ensures Disjoint(mid, x, nb)
    {
      MoveRanges(mid, l1, f, end, x, nb);
    }
    MoveRanges(mid, l1, f, end, b, nb);
  }

  /** The same for a block allocated behind the list. */
  lemma MoveLost(hdr0: Headers, mid: Headers, l: seq<nat>, f: seq<nat>, end: nat, curr: nat, b: nat)
    requires LiveIn(hdr0, l, b) && SameLive(hdr0, mid, l) && Coherent(hdr0, l, f, end)
    requires end in mid && hdr0[b].size <= mid[end].size && End(mid, end) <= curr
    ensures MoveReady(hdr0, mid, l, l, end, curr, b, end) && HEAP_START < end
    ensures forall x :: LiveIn(hdr0, l, x) <==> LiveIn(mid, l, x)
  {
    Distinct(hdr0, l, end);
    ToEnd(hdr0, l, end, 0);
    FromStart(hdr0, l, end, 0);
  }

  /** Freeing a listed block leaves a block behind the list alone. */
  lemma BehindKept(mid: Headers, hdr2: Headers, l: seq<nat>, l2: seq<nat>, f: seq<nat>, end: nat,
                   data2: seq<int>, data3: seq<int>, b: nat)
    requires Coherent(mid, l, f, end) && Freed(mid, hdr2, l, l2, b) && OnlyAt(data2, data3, Blocks(l)) && end in mid
    ensures end in hdr2 && hdr2[end] == mid[end] && Payload(hdr2, data3, end) == Payload(mid, data2, end)
  {
    Distinct(mid, l, end);
    assert end !in Blocks(l);
    forall k: nat | k < |data2| && end + HEADER <= HEAP_START + k
      ensures data3[k] == data2[k]
    {
      assert Outside(Blocks(l), k);
    }
  }

  lemma SameSizePayload(hdr: Headers, hdr': Headers, data: seq<int>, x: nat)
    requires x in hdr && x in hdr' && hdr'[x].size == hdr[x].size
    ensures Payload(hdr', data, x) == Payload(hdr, data, x)
  {
  }

  lemma SlicePrefix(s: seq<int>, o: nat, n: nat, e: nat)
    requires o + n <= e <= |s|
    ensures s[o..o + n] <= s[o..e]
  {
    assert s[o..e][..n] == s[o..o + n];
  }

  ghost predicate Cleared(s: seq<int>, n: nat) {
    n <= |s| && forall i: nat | i < n :: s[i] == 0
  }

  lemma Product(nmemb: nat, size: nat)
    requires 0 < size && 0 < nmemb
    ensures nmemb > SIZE_MAX / size <==> nmemb * size > SIZE_MAX
    ensures 0 < nmemb * size
  {
    var q, r := SIZE_MAX / size, SIZE_MAX % size;
    assert SIZE_MAX == q * size + r;
    if nmemb > q {
      assert nmemb * size >= (q + 1) * size;
    } else {
      assert nmemb * size <= q * size;
    }
  }

  lemma ClearRange(hdr: Headers, l: seq<nat>, f: seq<nat>, end: nat, b: nat)
    requires Coherent(hdr, l, f, end) && LiveIn(hdr, l, b)
    ensures HEAP_START <= b && End(hdr, b) <= end
  {
    Distinct(hdr, l, end);
  }

  ghost predicate AllDisjoint(hdr0: Headers, l0: seq<nat>, hdr: Headers, b: nat) {
    forall x | LiveIn(hdr0, l0, x) :: Disjoint(hdr, x, b)
  }

  lemma NewApart(hdr0: Headers, hdr: Headers, l0: seq<nat>, l: seq<nat>, f: seq<nat>, end: nat, b: nat)
    requires Allocated(hdr0, hdr, l0, l, b) && Coherent(hdr, l, f, end)
    ensures AllDisjoint(hdr0, l0, hdr, b)
  {
    hide Coherent;
    assert LiveIn(hdr, l, b);
    forall x | LiveIn(hdr0, l0, x)
      ensures Disjoint(hdr, x, b)
    {
      assert LiveIn(hdr, l, x);
      MoveRanges(hdr, l, f, end, x, b);
    }
  }

  lemma LostApart(hdr0: Headers, hdr: Headers, l0: seq<nat>, f0: seq<nat>, end: nat)
    requires Coherent(hdr0, l0, f0, end) && SameLive(hdr0, hdr, l0) && end in hdr
    ensures AllDisjoint(hdr0, l0, hdr, end)
  {
    Distinct(hdr0, l0, end);
  }

  /** A block just allocated, on the list or just behind it, lies apart from the blocks that were live before. */
  lemma ClearReady(hdr0: Headers, hdr: Headers, l0: seq<nat>, l: seq<nat>, f0: seq<nat>, f: seq<nat>, end0: nat,
                   end: nat,
                   b: nat, n: nat, aligned: nat, listed: bool)
    requires Coherent(hdr0, l0, f0, end0)
    requires listed ==>
      && Coherent(hdr, l, f, end)
      && (Made(hdr0, hdr, l0, l, b, aligned) || Taken(hdr0, hdr, l0, l, b, n, aligned))
    requires !listed ==> b == end0 && end0 in hdr && SameLive(hdr0, hdr, l0) && End(hdr, end0) <= end
    ensures AllDisjoint(hdr0, l0, hdr, b) && b in hdr && HEAP_START <= b && End(hdr, b) <= end
    ensures listed ==> Allocated(hdr0, hdr, l0, l, b)
  {
    if listed {
      AllocatedFrom(hdr0, hdr, l0, l, b, n, aligned);
      hide Taken, Made, Coherent;
      ClearRange(hdr, l, f, end, b);
      NewApart(hdr0, hdr, l0, l, f, end, b);
    } else {
      hide Taken, Made;
      LostApart(hdr0, hdr, l0, f0, end0);
      if l0 != [] { UpToLast(hdr0, l0, end0, 0); }
    }
  }

  /** Exactly the `n` bytes at `dst` were cleared. */
  ghost predicate ZeroedAt(data: seq<int>, data': seq<int>, dst: nat, n: nat) {
    && |data'| == |data|
    && forall k: nat | k < |data| :: data'[k] == if dst <= HEAP_START + k < dst + n then 0 else data[k]
  }

  lemma ZeroedWrites(data: seq<int>, data': seq<int>, dst: nat, n: nat)
    requires ZeroedAt(data, data', dst, n)
    ensures WritesIn(data, data', dst, n) && |data'| == |data|
  {
  }

  lemma ByteWrites(data: seq<int>, dst: nat, n: nat, i: nat, v: int)
    requires HEAP_START <= dst && i < n && dst - HEAP_START + n <= |data|
    ensures WritesIn(data, data[dst - HEAP_START + i := v], dst, n)
  {
  }

  /** Writing into one live payload changes no other. */
  lemma OthersKept(hdr: Headers, l: seq<nat>, f: seq<nat>, end: nat, data: seq<int>, data': seq<int>, b: nat)
    requires Coherent(hdr, l, f, end) && LiveIn(hdr, l, b) && WritesIn(data, data', b + HEADER, hdr[b].size)
    ensures forall x | LiveIn(hdr, l, x) && x != b :: Payload(hdr, data', x) == Payload(hdr, data, x)
  {
    forall x | LiveIn(hdr, l, x) && x != b
      ensures Payload(hdr, data', x) == Payload(hdr, data, x)
    {
      MoveRanges(hdr, l, f, end, x, b);
    }
  }

  /** Clearing the start of a block that lies apart from the live ones. */
  lemma ClearEffect(hdr0: Headers, hdr: Headers, l0: seq<nat>, data0: seq<int>, data1: seq<int>, data: seq<int>,
                    b: nat, n: nat)
    requires b in hdr && n <= hdr[b].size && HEAP_START <= b && End(hdr, b) <= HEAP_START + |data1|
    requires AllDisjoint(hdr0, l0, hdr, b) && ZeroedAt(data1, data, b + HEADER, n)
    ensures |data| == |data1|
    ensures Cleared(Payload(hdr, data, b), n)
    ensures Kept(hdr0, data0, hdr, data, l0) <==> Kept(hdr0, data0, hdr, data1, l0)
  {
    assert forall x | LiveIn(hdr0, l0, x) :: Payload(hdr, data, x) == Payload(hdr, data1, x);
  }

  /** `i` bytes at `s` are copied to `d` and nothing else changes. */
  ghost predicate Copied(a: seq<int>, b: seq<int>, d: nat, s: nat, i: nat) {
    && |b| == |a| && d + i <= |a| && s + i <= |a| && b[d..d + i] == a[s..s + i]
    && forall k: nat | k < |b| && !(d <= k < d + i) :: b[k] == a[k]
  }

  /** One pass of `memcpy`. */
  lemma CopyStep(a: seq<int>, b: seq<int>, d: nat, s: nat, n: nat, i: nat)
    requires i < n && Copied(a, b, d, s, i) && d + n <= |a| && s + n <= |a| && (d + n <= s || s + n <= d)
    ensures Copied(a, b[d + i := b[s + i]], d, s, i + 1)
  {
    var c := b[d + i := b[s + i]];
    assert c[d..d + i + 1] == b[d..d + i] + [a[s + i]];
    assert a[s..s + i + 1] == a[s..s + i] + [a[s + i]];
  }

  class Allocator {
    var hdr: Headers
    var heapHead: nat
    var heapTail: nat
    var freeList: nat
    var curr: nat
    var data: seq<int>
    ghost var heap: seq<nat>
    ghost var frees: seq<nat>
    ghost var known: set<nat>

    /** The memory holds the headers at the addresses of `known`, which do not overlap. */
    ghost predicate Synced()
      reads this
    {
      Backed(hdr, data, known) && Spread(known)
    }

    /** Both lists and their heads are right, and the heap list tiles the heap up to `end`. */
    ghost predicate Listed(end: nat)
      reads this
    {
      && Coherent(hdr, heap, frees, end)
      && heapHead == At(heap, 0) && freeList == At(frees, 0)
      && end <= curr < HEAP_END && |data| == HEAP_BYTES
      && Synced() && known == Blocks(heap)
    }

    /** Everything but `heapTail`: the heap list tiles the whole used range. */
    ghost predicate Valid()
      reads this
    {
      Listed(curr)
    }

    ghost predicate TailOk()
      reads this
    {
      heapTail == At(heap, |heap| - 1)
    }

    /** What always holds of `heapTail`. */
    ghost predicate TailNear()
      reads this
    {
      Near(hdr, heap, curr, heapTail)
    }

    ghost predicate Live(b: nat)
      reads this
    {
      b in heap && b in hdr && !hdr[b].free
    }

    /** `malloc` would fail: nothing is asked for, or no free block fits and the fresh region is exhausted. */
    ghost predicate WillRefuse(size: nat)
      reads this
    {
      size == 0 || (NoFit(hdr, frees, Align8(size)) && curr + Align8(size) + HEADER >= HEAP_END)
    }

    /** `malloc` would make a new block. */
    ghost predicate WillMake(size: nat)
      reads this
    {
      0 < size && NoFit(hdr, frees, Align8(size)) && curr + Align8(size) + HEADER < HEAP_END
    }

    /** `malloc` would make a new block behind a stale tail: the heap list would be lost. */
    ghost predicate WillLose(size: nat)
      reads this
    {
      WillMake(size) && !TailOk()
    }

    /** And the store through the tail would change the payload of the last block, which is live. */
    ghost predicate WillHarm(size: nat)
      reads this
    {
      WillMake(size) && !Spared(hdr, data, heap, heapTail, curr)
    }

    constructor (bytes: seq<int>)
      requires |bytes| == HEAP_BYTES
      ensures Valid() && TailOk() && TailNear() && heap == [] && curr == HEAP_START
    {
      hdr, heapHead, heapTail, freeList, curr, data := map[], 0, 0, 0, HEAP_START, bytes;
      heap, frees, known := [], [], {};
    }

    /** Free block `b` can hold `size` bytes. */
    ghost predicate Fits(b: nat, size: nat)
      reads this
    {
      b in frees && b in hdr && size <= hdr[b].size
    }

    /** `_find_best_fit_free_block`: a smallest block that fits, the last such one in list order. */
    method FindBestFit(aligned: nat) returns (best: nat, ghost k: nat)
      requires Valid()
      ensures best == 0 <==> aligned == 0 || forall j | 0 <= j < |frees| :: !Fits(frees[j], aligned)
      ensures best != 0 ==> k < |frees| && best == frees[k] && Fits(best, aligned)
      ensures best != 0 ==> forall j | 0 <= j < |frees| && Fits(frees[j], aligned) ::
        hdr[best].size <= hdr[frees[j]].size && (k < j ==> hdr[best].size < hdr[frees[j]].size)
    {
      hide Backed, Spread, Coherent;
      k := 0;
      if aligned == 0 { return 0, 0; }
      NullFree(hdr, heap, frees, curr);
      var iter := freeList;
      best := 0;
      ghost var i := 0;
      while iter != 0
        invariant i <= |frees| && iter == At(frees, i)
        invariant best == 0 ==> forall j | 0 <= j < i :: !Fits(frees[j], aligned)
        invariant best != 0 ==> k < i && best == frees[k] && Fits(best, aligned)
        invariant best != 0 ==> forall j | 0 <= j < i && Fits(frees[j], aligned) ::
          hdr[best].size <= hdr[frees[j]].size && (k < j ==> hdr[best].size < hdr[frees[j]].size)
        decreases |frees| - i
      {
        FreeNode(hdr, heap, frees, curr, i);
        if iter < HEAP_START || iter >= HEAP_END { break; }
        if hdr[iter].size >= aligned && (best == 0 || hdr[iter].size <= hdr[best].size) {
          best, k := iter, i;
        }
        if iter == hdr[iter].nextFree { break; }
        iter := hdr[iter].nextFree;
        i := i + 1;
      }
    }

    /** A header can be stored at `n` without touching those that are there. */
    ghost predicate NewHeaderAt(n: nat)
      reads this
    {
      n !in known && Spread(known + {n}) && HEAP_START <= n && n + HEADER <= HEAP_START + |data|
    }

    /** The first stores of `_split_block`: a new free header in front of the free list. */
    method SplitFront(n: nat, h: Header)
      requires 0 !in hdr && (freeList != 0 ==> freeList in hdr && freeList in known) && n != freeList
      requires Synced() && NewHeaderAt(n)
      modifies this`hdr, this`freeList, this`data, this`known
      ensures Synced() && known == old(known) + {n}
      ensures freeList == n && hdr.Keys == old(hdr).Keys + {n} && hdr[n] == h
      ensures forall x | x in old(hdr) && x != n ::
        hdr[x] == old(hdr)[x].(prevFree := if x == old(freeList) then n else old(hdr)[x].prevFree)
      ensures OnlyAt(old(data), data, {n, old(freeList)})
    {
      hide OnlyAt, Store, StoreHeader, Backed, Spread;
      ghost var s, data0 := {n, freeList}, data;
      OnlyNothing(data0, s);
      HeaderOnly(data0, data, s, n, h);
      NewBacked(hdr, data, known, n, h);
      hdr, data := hdr[n := h], StoreHeader(data, n, h);
      known := known + {n};
      if freeList != 0 {
        StoreOnly(data0, data, s, freeList, PREV_FREE, n);
        StoreBacked(hdr, data, known, freeList, PREV_FREE, n);
        hdr, data := hdr[freeList := hdr[freeList].(prevFree := n)], Store(data, freeList + PREV_FREE, n);
      }
      freeList := n;
    }

    /** The stores of `_split_block` into the heap list. */
    method SplitLinks(b: nat, n: nat, aligned: nat)
      requires 0 !in hdr && b in hdr && (hdr[b].next != 0 ==> hdr[b].next in hdr && hdr[b].next != b)
      requires Synced() && b in known && (hdr[b].next != 0 ==> hdr[b].next in known)
      modifies this`hdr, this`data
      ensures Synced() && hdr.Keys == old(hdr).Keys
      ensures forall x | x in old(hdr) :: hdr[x] == old(hdr)[x].(
        size := if x == b then aligned else old(hdr)[x].size,
        next := if x == b then n else old(hdr)[x].next,
        prev := if x == old(hdr)[b].next then n else old(hdr)[x].prev)
      ensures OnlyAt(old(data), data, {b, old(hdr)[b].next})
    {
      hide OnlyAt, Store, Backed, Spread;
      ghost var s, data0 := {b, hdr[b].next}, data;
      OnlyNothing(data0, s);
      var next := hdr[b].next;
      if next != 0 {
        StoreOnly(data0, data, s, next, PREV, n);
        StoreBacked(hdr, data, known, next, PREV, n);
        hdr, data := hdr[next := hdr[next].(prev := n)], Store(data, next + PREV, n);
      }
      StoreOnly(data0, data, s, b, NEXT, n);
      StoreBacked(hdr, data, known, b, NEXT, n);
      hdr, data := hdr[b := hdr[b].(next := n)], Store(data, b + NEXT, n);
      StoreOnly(data0, data, s, b, SIZE, aligned);
      StoreBacked(hdr, data, known, b, SIZE, aligned);
      hdr, data := hdr[b := hdr[b].(size := aligned)], Store(data, b + SIZE, aligned);
    }

    /** The stores of `_split_block`. */
    method SplitHeaders(b: nat, aligned: nat)
      requires 0 !in hdr && b in hdr && aligned + HEADER <= hdr[b].size && (freeList != 0 ==> freeList in hdr)
      requires hdr[b].next != 0 ==> hdr[b].next in hdr && hdr[b].next != b
      requires b + HEADER + aligned !in {b, freeList, hdr[b].next}
      requires Synced() && b in known && (hdr[b].next != 0 ==> hdr[b].next in known)
      requires (freeList != 0 ==> freeList in known)
      requires NewHeaderAt(b + HEADER + aligned)
      modifies this`hdr, this`heapTail, this`freeList, this`data, this`known
      ensures Synced() && known == old(known) + {b + HEADER + aligned}
      ensures var n, first, next := b + HEADER + aligned, old(freeList), old(hdr)[b].next;
        && freeList == n && heapTail == (if next == 0 then n else old(heapTail))
        && SplitDone(old(hdr), hdr, b, aligned, first)
        && OnlyAt(old(data), data, {n, first, next, b})
    {
      hide OnlyAt, SplitDone, Backed, Spread;
      ghost var hdr0, first, next, data0 := hdr, freeList, hdr[b].next, data;
      var n := b + HEADER + aligned;
      SplitFront(n, Header(hdr[b].size - aligned - HEADER, true, hdr[b].next, b, freeList, 0));
      ghost var data1, hdr1 := data, hdr;
      SplitLinks(b, n, aligned);
      OnlyTrans(data0, data1, data, {n, first}, {b, next}, {n, first, next, b});
      SplitIs(hdr0, hdr1, hdr, b, n, aligned, first);
      if hdr[n].next == 0 {
        heapTail := n;
      }
    }

    /** `_split_block`: `b` keeps `aligned` bytes; the rest becomes a free block, first in the free list. */
    method Split(b: nat, aligned: nat, ghost i: nat)
      requires Valid() && i < |heap| && b == heap[i] && b in hdr && hdr[b].free
      requires 8 <= aligned && aligned % 8 == 0 && aligned + HEADER + MIN_BLOCK <= hdr[b].size
      modifies this
      ensures heapTail == (if i + 1 == |old(heap)| then b + HEADER + aligned else old(heapTail))
      ensures heapHead == old(heapHead) && curr == old(curr)
      ensures OnlyAt(old(data), data, Blocks(old(heap)) + {b + HEADER + aligned, 0})
      ensures var n := b + HEADER + aligned;
        && heap == old(heap)[..i + 1] + [n] + old(heap)[i + 1..] && frees == [n] + old(frees) && freeList == n
        && SplitLists(old(hdr), hdr, old(heap), heap, frees, curr, b, n)
        && b in hdr && hdr[b].size == aligned
      ensures |data| == HEAP_BYTES && Synced() && known == Blocks(heap)
    {
      hide HeapList, FreeList, SplitLists, OnlyAt, Backed, Spread;
      var n := b + HEADER + aligned;
      ghost var hdr0, l, f := hdr, heap, frees;
      SplitPre(hdr0, l, f, curr, i, n);
      if n + HEADER > HEAP_END {
        return;
      }
      ghost var data0, s := data, {n, freeList, hdr[b].next, b};
      SplitSpread(hdr0, l, f, curr, i, n);
      SplitHeaders(b, aligned);
      assert s <= Blocks(l) + {n, 0};
      OnlyNothing(data, {});
      OnlyTrans(data0, data, data, s, {}, Blocks(l) + {n, 0});
      heap := l[..i + 1] + [n] + l[i + 1..];
      frees := [n] + f;
      SplitBlocks(l, i, n);
      OnlyLength(data0, data, s);
      SplitStep(hdr0, hdr, l, f, curr, i, aligned);
    }

    /** The two stores that bridge over the element at position `k` of the free list. */
    method Bridge(prev: nat, next: nat, ghost k: nat)
      requires 0 !in hdr && FreeList(hdr, frees) && k < |frees| && prev == At(frees, k - 1) && next == At(frees, k + 1)
      requires Synced() && Blocks(frees) <= known
      modifies this`hdr, this`data
      ensures Synced() && hdr.Keys == old(hdr).Keys && OnlyAt(old(data), data, Blocks(frees))
      ensures forall i: nat | i < |frees| && frees[i] in old(hdr) ::
        hdr[frees[i]] == old(hdr)[frees[i]].(
          nextFree := if i + 1 == k then next else old(hdr)[frees[i]].nextFree,
          prevFree := if i == k + 1 then prev else old(hdr)[frees[i]].prevFree)
      ensures LinksOnly(old(hdr), hdr, frees)
    {
      hide OnlyAt, Store, Backed, Spread;
      ghost var f, data0 := frees, data;
      Neighbours(hdr, f, k);
      OnlyNothing(data0, Blocks(f));
      if prev != 0 {
        assert prev == f[k - 1];
        StoreOnly(data0, data, Blocks(f), prev, NEXT_FREE, next);
        StoreBacked(hdr, data, known, prev, NEXT_FREE, next);
        hdr, data := hdr[prev := hdr[prev].(nextFree := next)], Store(data, prev + NEXT_FREE, next);
      }
      if next != 0 {
        assert next == f[k + 1];
        StoreOnly(data0, data, Blocks(f), next, PREV_FREE, prev);
        StoreBacked(hdr, data, known, next, PREV_FREE, prev);
        hdr, data := hdr[next := hdr[next].(prevFree := prev)], Store(data, next + PREV_FREE, prev);
      }
    }

    method ClearLinks(b: nat)
      requires b in hdr && Synced() && b in known
      modifies this`hdr, this`data
      ensures Synced() && hdr == old(hdr)[b := old(hdr)[b].(nextFree := 0, prevFree := 0)]
      ensures OnlyAt(old(data), data, {b})
    {
      hide OnlyAt, Store, Backed, Spread;
      ghost var data0 := data;
      OnlyNothing(data0, {b});
      StoreOnly(data0, data, {b}, b, NEXT_FREE, 0);
      StoreBacked(hdr, data, known, b, NEXT_FREE, 0);
      hdr, data := hdr[b := hdr[b].(nextFree := 0)], Store(data, b + NEXT_FREE, 0);
      StoreOnly(data0, data, {b}, b, PREV_FREE, 0);
      StoreBacked(hdr, data, known, b, PREV_FREE, 0);
      hdr, data := hdr[b := hdr[b].(prevFree := 0)], Store(data, b + PREV_FREE, 0);
    }

    /** `_remove_from_free_list`, on the element at position `k`. */
    method Remove(b: nat, ghost k: nat)
      requires 0 !in hdr && FreeList(hdr, frees) && k < |frees| && frees[k] == b && freeList == At(frees, 0)
      requires Synced() && Blocks(frees) <= known
      modifies this`hdr, this`freeList, this`frees, this`data
      ensures Synced() && frees == Without(old(frees), k) && freeList == At(frees, 0)
      ensures forall x :: x in frees <==> x in old(frees) && x != b
      ensures FreeList(hdr, frees) && LinksOnly(old(hdr), hdr, old(frees))
      ensures OnlyAt(old(data), data, Blocks(old(frees)) + {0})
    {
      hide OnlyAt, Store, Backed, Spread;
      ghost var hdr0, f, data0 := hdr, frees, data;
      Neighbours(hdr0, f, k);
      if b == 0 { return; }
      var prev, next := hdr[b].prevFree, hdr[b].nextFree;
      Bridge(prev, next, k);
      ghost var data1 := data;
      if prev == 0 {
        freeList := next;
      }
      ClearLinks(b);
      frees := Without(f, k);
      UnlinkStep(hdr0, hdr, f, k);
      OnlyTrans(data0, data1, data, Blocks(f), {b}, Blocks(f) + {0});
    }

    /** The unlinking that `free` does inline, once for each neighbour; `b` keeps its own links. */
    method Unlink(b: nat, ghost k: nat)
      requires 0 !in hdr && FreeList(hdr, frees) && k < |frees| && frees[k] == b && freeList == At(frees, 0)
      requires Synced() && Blocks(frees) <= known
      modifies this`hdr, this`freeList, this`frees, this`data
      ensures Synced() && frees == Without(old(frees), k) && freeList == At(frees, 0)
      ensures forall x :: x in frees <==> x in old(frees) && x != b
      ensures FreeList(hdr, frees) && LinksOnly(old(hdr), hdr, old(frees))
      ensures OnlyAt(old(data), data, Blocks(old(frees)) + {0})
    {
      hide OnlyAt, Backed, Spread;
      ghost var hdr0, f, data0 := hdr, frees, data;
      Neighbours(hdr0, f, k);
      Bridge(hdr[b].prevFree, hdr[b].nextFree, k);
      if freeList == b {
        freeList := hdr[b].nextFree;
      }
      frees := Without(f, k);
      UnlinkStep(hdr0, hdr, f, k);
      OnlyNothing(data, {});
      OnlyTrans(data0, data, data, Blocks(f), {}, Blocks(f) + {0});
    }

    /** The split of `malloc`, made when enough is left over. */
    method SplitIfLarge(b: nat, aligned: nat, ghost i: nat, ghost k: nat) returns (ghost n: nat, ghost k': nat)
      requires Valid() && k < |frees| && frees[k] == b && b in hdr && hdr[b].free && i < |heap| && heap[i] == b
      requires 8 <= aligned <= hdr[b].size && aligned % 8 == 0
      modifies this
      ensures heapHead == old(heapHead) && curr == old(curr) && heap == MaybeSplit(old(heap), i, n)
      ensures OnlyAt(old(data), data, Blocks(old(heap)) + {n, 0})
      ensures heapTail == (if n != b && i + 1 == |old(heap)| then n else old(heapTail))
      ensures 0 !in hdr && FreeList(hdr, frees) && freeList == At(frees, 0) && k' < |frees| && frees[k'] == b
      ensures SplitStage(old(hdr), hdr, old(heap), old(frees), frees, curr, i, n, aligned)
      ensures |data| == HEAP_BYTES && Synced() && known == Blocks(heap)
    {
      hide HeapList, FreeList, OnlyAt, Backed, Spread;
      n, k' := b, k;
      OnlyNothing(data, Blocks(heap) + {n, 0});
      if hdr[b].size >= aligned + HEADER + MIN_BLOCK {
        Split(b, aligned, i);
        n, k' := b + HEADER + aligned, k + 1;
      }
    }

    /** The reuse path of `malloc`: split the chosen block when enough is left over, then take it. */
    method Take(b: nat, aligned: nat, ghost k: nat) returns (ghost n: nat)
      requires Valid() && TailNear() && k < |frees| && frees[k] == b && b in hdr
      requires 8 <= aligned <= hdr[b].size && aligned % 8 == 0
      modifies this
      ensures Valid() && TailNear() && (old(TailOk()) ==> TailOk()) && curr == old(curr)
      ensures n == b ==> heapTail == old(heapTail)
      ensures Taken(old(hdr), hdr, old(heap), heap, b, n, aligned)
      ensures Kept(old(hdr), old(data), hdr, data, old(heap))
    {
      hide Coherent, HeapList, FreeList, Taken, SplitStage, OnlyAt, Kept, Store, LinksOnly, Near, TakePath;
      hide Backed, Spread;
      ghost var hdr0, l, f, tail, data0 := hdr, heap, frees, heapTail, data;
      FreeMember(hdr0, l, f, curr, k);
      ghost var i := IndexOf(l, b);
      ghost var k';
      n, k' := SplitIfLarge(b, aligned, i, k);
      ghost var hdr1, f1, data1, s := hdr, frees, data, Blocks(l) + {n, 0};
      StageHeader(hdr0, hdr1, l, f, f1, curr, i, n, aligned);
      MaybeBlocks(l, i, n);
      Remove(b, k');
      ghost var hdr2 := hdr;
      LinksFacts(hdr1, hdr2, f1);
      OnlyTrans(data0, data1, data, s, Blocks(f1) + {0}, s);
      StoreOnly(data0, data, s, b, FREE, 0);
      StoreBacked(hdr, data, known, b, FREE, 0);
      hdr, data := hdr[b := hdr[b].(free := false)], Store(data, b + FREE, 0);
      TakePathIs(hdr0, hdr1, hdr2, hdr, l, f, f1, frees, curr, i, n, aligned);
      TakeCoherent(hdr0, hdr1, hdr2, hdr, l, f, f1, frees, curr, i, n, aligned);
      SplitEnds(l, i, n);
      TakeEffect(hdr0, hdr1, hdr2, hdr, l, f, f1, frees, curr, i, n, aligned);
      TakenTail(hdr0, hdr, l, frees, curr, tail, i, n, aligned);
      TakenKeeps(hdr0, hdr, l, heap, f, curr, data0, data, b, n, aligned);
    }

    /** The stores of `_make_new_block`. */
    method MakeHeaders(aligned: nat) returns (ptr: nat)
      requires 0 !in hdr && heapHead != curr && (heapHead != 0 ==> heapTail in hdr && heapTail != curr)
      requires (heapHead == 0 ==> heapTail == 0)
      requires Synced() && NewHeaderAt(curr)
      requires (heapHead != 0 ==> heapTail in known || Misses(known + {curr}, heapTail + NEXT))
      modifies this`hdr, this`heapHead, this`heapTail, this`curr, this`data, this`known
      ensures Synced() && known == old(known) + {old(curr)}
      ensures ptr == old(curr) + HEADER && curr == ptr + aligned
      ensures heapHead == (if old(heapHead) == 0 then old(curr) else old(heapHead)) && heapTail == old(curr)
      ensures hdr.Keys == old(hdr).Keys + {old(curr)}
      ensures hdr[old(curr)] == Header(aligned, false, 0, old(heapTail), 0, 0)
      ensures forall x | x in old(hdr) && x != old(curr) ::
        hdr[x] == if old(heapHead) != 0 && x == old(heapTail) then old(hdr)[x].(next := old(curr)) else old(hdr)[x]
      ensures |data| == |old(data)| && OnlyAt(TailStored(old(data), old(heapTail), old(curr)), data, {old(curr)})
    {
      hide OnlyAt, Store, StoreHeader, Backed, Spread, Misses;
      var b, tail := curr, heapTail;
      ghost var data0 := data;
      OnlyNothing(data0, {b});
      HeaderOnly(data0, data, {b}, b, Header(aligned, false, 0, tail, 0, 0));
      NewBacked(hdr, data, known, b, Header(aligned, false, 0, tail, 0, 0));
      data := StoreHeader(data, b, Header(aligned, false, 0, tail, 0, 0));
      hdr := hdr[b := Header(aligned, false, 0, tail, 0, 0)];
      known := known + {b};
      if heapHead == 0 {
        heapHead, heapTail := b, b;
      } else {
        StoreBoth(data0, data, {b}, tail + NEXT, b);
        if tail in known {
          StoreBacked(hdr, data, known, tail, NEXT, b);
        } else {
          MissBacked(hdr, data, known, tail, b);
        }
        data := Store(data, tail + NEXT, b);
        hdr := hdr[tail := hdr[tail].(next := b)];
        StoreOnly(TailStored(data0, tail, b), data, {b}, b, PREV, tail);
        StoreBacked(hdr, data, known, b, PREV, tail);
        data := Store(data, b + PREV, tail);
        hdr := hdr[b := hdr[b].(prev := tail)];
        heapTail := b;
      }
      curr := curr + (aligned + HEADER);
      ptr := b + HEADER;
    }

    /** `_make_new_block`. With a right `heapTail` the new block joins the heap list. With a stale one it
        is linked behind a header that is no block, no list tiles the heap any more, and the store through
        the tail lands inside the last block. */
    method MakeNew(aligned: nat) returns (ptr: nat)
      requires Valid() && 8 <= aligned <= MAX_REQUEST && aligned % 8 == 0
      requires TailNear()
      modifies this
      ensures ptr == 0 <==> old(curr) + aligned + HEADER >= HEAP_END
      ensures ptr == 0 ==> unchanged(this)
      ensures ptr != 0 ==> ptr == old(curr) + HEADER && curr == ptr + aligned && ptr % 8 == 0
      ensures ptr != 0 ==> old(curr) in hdr && !hdr[old(curr)].free && hdr[old(curr)].size == aligned
      ensures ptr != 0 ==> Kept(old(hdr), TailStored(old(data), old(heapTail), old(curr)), hdr, data, old(heap))
      ensures ptr != 0 ==>
        (Kept(old(hdr), old(data), hdr, data, old(heap)) <==>
           Spared(old(hdr), old(data), old(heap), old(heapTail), old(curr)))
      ensures ptr != 0 && old(TailOk()) ==>
        && Valid() && TailOk() && TailNear() && Live(old(curr))
        && Made(old(hdr), hdr, old(heap), heap, old(curr), aligned)
      ensures ptr != 0 && !old(TailOk()) ==>
        && (forall l :: !HeapList(hdr, l, curr))
        && Listed(old(curr)) && heap == old(heap) && SameLive(old(hdr), hdr, heap)
    {
      hide HeapList, Coherent, Made, Kept, Spared, TailStored, OnlyAt, SameLive, Near, Backed, Spread, Misses;
      if curr + (aligned + HEADER) >= HEAP_END {
        return 0;
      }
      ghost var hdr0, l, end, tail, data0 := hdr, heap, curr, heapTail, data;
      MakePre(hdr0, l, frees, end, tail);
      MakeSpread(hdr0, l, frees, end, tail);
      ptr := MakeHeaders(aligned);
      if tail == At(l, |l| - 1) { heap := l + [end]; }
      BackedSub(hdr, data, known, Blocks(heap));
      known := Blocks(heap);
      MakeEffect(hdr0, hdr, l, frees, end, curr, aligned, tail, data0, data);
    }

    /** `malloc`. It loses the heap list exactly when it makes a new block behind a stale tail, and it changes the
        payload of a live block exactly when, besides, the last block is live and the stored word is new to it. */
    method Malloc(size: nat) returns (ptr: nat, ghost n: nat)
      requires Valid() && TailNear() && size + 7 <= MAX_REQUEST
      modifies this
      ensures ptr == 0 <==> old(WillRefuse(size))
      ensures ptr == 0 ==> unchanged(this)
      ensures Valid() <==> !old(WillLose(size))
      ensures !old(WillLose(size)) ==>
        && TailNear() && (old(TailOk()) ==> TailOk()) && (ptr != 0 ==> HEADER <= ptr && Live(ptr - HEADER))
      ensures old(WillLose(size)) ==>
        && (forall l :: !HeapList(hdr, l, curr)) && Listed(old(curr)) && heap == old(heap)
        && SameLive(old(hdr), hdr, heap)
      ensures Kept(old(hdr), old(data), hdr, data, old(heap)) <==>
        !old(WillHarm(size))
      ensures ptr != 0 ==> ptr % 8 == 0 && HEADER <= ptr && ptr - HEADER in hdr && size <= hdr[ptr - HEADER].size
      ensures old(WillMake(size)) ==>
        && ptr == old(curr) + HEADER && curr == ptr + Align8(size) && hdr[old(curr)].size == Align8(size)
        && Kept(old(hdr), TailStored(old(data), old(heapTail), old(curr)), hdr, data, old(heap))
        && (old(TailOk()) ==> Made(old(hdr), hdr, old(heap), heap, old(curr), Align8(size)))
      ensures ptr != 0 && !old(WillMake(size)) ==>
        && curr == old(curr)
        && BestFit(old(hdr), old(frees), Align8(size), ptr - HEADER)
        && Taken(old(hdr), hdr, old(heap), heap, ptr - HEADER, n, Align8(size))
        && (n == ptr - HEADER ==> heapTail == old(heapTail))
    {
      hide HeapList, FreeList, Kept, Spared, TailStored, Taken, Made, Near, SameLive, Backed, Spread;
      n := 0;
      KeptItself(hdr, data, heap);
      if size == 0 { return 0, 0; }
      var aligned := Align8(size);
      ghost var hdr0, l := hdr, heap;
      var best; ghost var k;
      best, k := FindBestFit(aligned);
      if best != 0 {
        n := Take(best, aligned, k);
        ptr := best + HEADER;
        TakenFacts(hdr0, hdr, l, heap, best, n, aligned);
        Aligned(hdr, heap, frees, curr);
      } else {
        ptr := MakeNew(aligned);
      }
    }

    /** The stores that extend `first` over `second`. */
    method Absorb(first: nat, second: nat)
      requires 0 !in hdr && first in hdr && second in hdr && first != second
      requires hdr[second].next != 0 ==>
        && hdr[second].next in hdr && hdr[second].next != first && hdr[second].next != second
      requires Synced() && first in known && (hdr[second].next != 0 ==> hdr[second].next in known)
      modifies this`hdr, this`data
      ensures Synced()
      ensures Absorbed(old(hdr), hdr, first, second)
      ensures OnlyAt(old(data), data, {first, old(hdr)[second].next})
    {
      hide OnlyAt, Store, Backed, Spread;
      ghost var data0, s := data, {first, hdr[second].next};
      OnlyNothing(data0, s);
      StoreOnly(data0, data, s, first, SIZE, hdr[first].size + (hdr[second].size + HEADER));
      StoreBacked(hdr, data, known, first, SIZE, hdr[first].size + (hdr[second].size + HEADER));
      data := Store(data, first + SIZE, hdr[first].size + (hdr[second].size + HEADER));
      hdr := hdr[first := hdr[first].(size := hdr[first].size + (hdr[second].size + HEADER))];
      StoreOnly(data0, data, s, first, NEXT, hdr[second].next);
      StoreBacked(hdr, data, known, first, NEXT, hdr[second].next);
      data := Store(data, first + NEXT, hdr[second].next);
      hdr := hdr[first := hdr[first].(next := hdr[second].next)];
      var third := hdr[second].next;
      if third != 0 {
        StoreOnly(data0, data, s, third, PREV, first);
        StoreBacked(hdr, data, known, third, PREV, first);
        hdr, data := hdr[third := hdr[third].(prev := first)], Store(data, third + PREV, first);
      }
    }

    /** One merge of `free`: the neighbour `listed` leaves the free list and the two blocks at `j` and `j + 1`
        become one. */
    method Merge(first: nat, second: nat, listed: nat, ghost end: nat, ghost i: nat, ghost j: nat)
      requires Pending(hdr, heap, frees, end, i) && freeList == At(frees, 0)
      requires j + 1 < |heap| && first == heap[j] && second == heap[j + 1] && (i == j || i == j + 1)
      requires listed == heap[j + j + 1 - i] && listed in hdr && hdr[listed].free
      requires Synced() && known == Blocks(heap)
      modifies this`hdr, this`freeList, this`frees, this`heap, this`data, this`known
      ensures Synced() && known == Blocks(heap)
      ensures heap == old(heap)[..j + 1] + old(heap)[j + 2..] && freeList == At(frees, 0)
      ensures Pending(hdr, heap, frees, end, j)
      ensures MergedOnly(old(hdr), hdr, old(heap), heap, j) && OnlyAt(old(data), data, Blocks(old(heap)))
    {
      hide HeapList, FreeList, MergedOnly, OnlyAt, Pending, Absorbed, LinksOnly, MergePath, Backed, Spread;
      ghost var hdr0, l, f, data0 := hdr, heap, frees, data;
      MergePre(hdr0, l, f, end, i, j);
      Unlink(listed, IndexOf(f, listed));
      ghost var hdr1, data1 := hdr, data;
      LinksFacts(hdr0, hdr1, f);
      Absorb(first, second);
      heap := l[..j + 1] + l[j + 2..];
      BackedSub(hdr, data, known, Blocks(heap));
      known := Blocks(heap);
      MergePathIs(hdr0, hdr1, hdr, l, f, frees, i, j);
      OnlyTrans(data0, data1, data, Blocks(f) + {0}, {first, At(l, j + 2)}, Blocks(l) + {0});
      OnlyNull(data0, data, Blocks(l));
      MergeStep(hdr0, hdr1, hdr, l, f, frees, end, i, j);
    }

    /** The right merge of `free`: block `b`, at `i`, swallows a free successor. */
    method MergeRight(b: nat, ghost end: nat, ghost i: nat)
      requires Pending(hdr, heap, frees, end, i) && freeList == At(frees, 0) && b == heap[i]
      requires Synced() && known == Blocks(heap)
      modifies this`hdr, this`freeList, this`frees, this`heap, this`data, this`known
      ensures Synced() && known == Blocks(heap)
      ensures Pending(hdr, heap, frees, end, i) && freeList == At(frees, 0) && b == heap[i]
      ensures RightClear(hdr, heap, i) && LiveKept(old(hdr), hdr, old(heap), heap)
      ensures OnlyAt(old(data), data, Blocks(old(heap)))
      ensures heap[0] == old(heap[0])
      ensures i > 0 ==> heap[i - 1] == old(heap)[i - 1] && (Free(hdr, heap[i - 1]) <==> Free(old(hdr), heap[i - 1]))
      ensures heap == (if i + 1 < |old(heap)| && Free(old(hdr), old(heap)[i + 1])
                       then old(heap)[..i + 1] + old(heap)[i + 2..] else old(heap))
    {
      hide HeapList, FreeList, OnlyAt, Backed, Spread;
      ghost var hdr0, l := hdr, heap;
      OnlyNothing(data, Blocks(l));
      PendingLinks(hdr0, l, frees, end, i);
      var next := hdr[b].next;
      if next != 0 && hdr[next].free {
        Merge(b, next, next, end, i, i);
        MergeKeeps(hdr0, hdr, l, heap, i);
      }
    }

    /** The left merge of `free`: a free predecessor swallows block `b`. Returns the block to be listed. */
    method MergeLeft(b: nat, ghost end: nat, ghost i: nat) returns (block: nat, ghost j: nat)
      requires Pending(hdr, heap, frees, end, i) && freeList == At(frees, 0) && b == heap[i] && RightClear(hdr, heap, i)
      requires Synced() && known == Blocks(heap)
      modifies this`hdr, this`freeList, this`frees, this`heap, this`data, this`known
      ensures Synced() && known == Blocks(heap)
      ensures Pending(hdr, heap, frees, end, j) && freeList == At(frees, 0) && block == heap[j]
      ensures RightClear(hdr, heap, j) && LeftClear(hdr, heap, j) && LiveKept(old(hdr), hdr, old(heap), heap)
      ensures OnlyAt(old(data), data, Blocks(old(heap)))
      ensures heap[0] == old(heap[0])
      ensures heap == (if i > 0 && Free(old(hdr), old(heap)[i - 1])
                       then old(heap)[..i] + old(heap)[i + 1..] else old(heap))
    {
      hide HeapList, FreeList, OnlyAt, Backed, Spread;
      ghost var hdr0, l := hdr, heap;
      OnlyNothing(data, Blocks(l));
      PendingLinks(hdr0, l, frees, end, i);
      block, j := b, i;
      var prev := hdr[b].prev;
      if prev != 0 && hdr[prev].free {
        j := i - 1;
        Merge(prev, b, prev, end, i, j);
        block := prev;
        MergeKeeps(hdr0, hdr, l, heap, j);
      }
    }

    /** The stores that put `block` in front of the free list. */
    method PushStores(block: nat)
      requires 0 !in hdr && block in hdr && (freeList != 0 ==> freeList in hdr) && block != freeList
      requires Synced() && block in known && (freeList != 0 ==> freeList in known)
      modifies this`hdr, this`freeList, this`data
      ensures Synced()
      ensures freeList == block && hdr.Keys == old(hdr).Keys && OnlyAt(old(data), data, {block, old(freeList)})
      ensures forall x | x in old(hdr) :: hdr[x] == old(hdr)[x].(
        nextFree := if x == block then old(freeList) else old(hdr)[x].nextFree,
        prevFree := if x == block then 0 else if x == old(freeList) then block else old(hdr)[x].prevFree)
    {
      hide OnlyAt, Store, Backed, Spread;
      ghost var data0, s := data, {block, freeList};
      OnlyNothing(data0, s);
      StoreOnly(data0, data, s, block, NEXT_FREE, freeList);
      StoreBacked(hdr, data, known, block, NEXT_FREE, freeList);
      hdr, data := hdr[block := hdr[block].(nextFree := freeList)], Store(data, block + NEXT_FREE, freeList);
      StoreOnly(data0, data, s, block, PREV_FREE, 0);
      StoreBacked(hdr, data, known, block, PREV_FREE, 0);
      hdr, data := hdr[block := hdr[block].(prevFree := 0)], Store(data, block + PREV_FREE, 0);
      if freeList != 0 {
        StoreOnly(data0, data, s, freeList, PREV_FREE, block);
        StoreBacked(hdr, data, known, freeList, PREV_FREE, block);
        hdr, data := hdr[freeList := hdr[freeList].(prevFree := block)], Store(data, freeList + PREV_FREE, block);
      }
      freeList := block;
    }

    /** The insertion of `free`: the pending block becomes the first of the free list. */
    method Push(block: nat, ghost end: nat, ghost j: nat)
      requires Pending(hdr, heap, frees, end, j) && freeList == At(frees, 0) && block == heap[j]
      requires RightClear(hdr, heap, j) && LeftClear(hdr, heap, j)
      requires Synced() && known == Blocks(heap)
      modifies this`hdr, this`freeList, this`frees, this`data
      ensures Synced()
      ensures Coherent(hdr, heap, frees, end) && freeList == At(frees, 0)
      ensures LiveKept(old(hdr), hdr, heap, heap) && OnlyAt(old(data), data, Blocks(heap))
    {
      hide OnlyAt, Pending, RightClear, LeftClear, LiveKept, Coherent, Backed, Spread;
      ghost var hdr0, f, data0 := hdr, frees, data;
      PendingLinks(hdr0, heap, f, end, j);
      PendingFront(hdr0, heap, f, end, j);
      PushStores(block);
      frees := [block] + f;
      OnlyNothing(data, {});
      OnlyTrans(data0, data, data, {block, At(f, 0)}, {}, Blocks(heap) + {0});
      OnlyNull(data0, data, Blocks(heap));
      PushStep(hdr0, hdr, heap, f, end, j);
    }

    /** The merges and the insertion of `free`. */
    method Coalesce(b: nat, ghost end: nat, ghost i: nat)
      requires Pending(hdr, heap, frees, end, i) && freeList == At(frees, 0) && b == heap[i]
      requires Synced() && known == Blocks(heap)
      modifies this`hdr, this`freeList, this`frees, this`heap, this`data, this`known
      ensures Synced() && known == Blocks(heap)
      ensures Coherent(hdr, heap, frees, end) && freeList == At(frees, 0)
      ensures heap == Coalesced(old(hdr), old(heap), i) && At(heap, 0) == old(heap)[0]
      ensures LiveKept(old(hdr), hdr, old(heap), heap) && OnlyAt(old(data), data, Blocks(old(heap)))
    {
      hide Pending, LiveKept, RightClear, LeftClear, OnlyAt, Backed, Spread;
      ghost var hdr1, l, data1 := hdr, heap, data;
      assert i < |l| by { PendingIndex(hdr, heap, frees, end, i); }
      MergeRight(b, end, i);
      ghost var hdr2, l2, data2 := hdr, heap, data;
      var block; ghost var j;
      block, j := MergeLeft(b, end, i);
      ghost var hdr3, l3, data3 := hdr, heap, data;
      Push(block, end, j);
      KeptBlocks(hdr1, hdr2, l, l2);
      KeptBlocks(hdr2, hdr3, l2, l3);
      OnlyTrans(data1, data2, data3, Blocks(l), Blocks(l2), Blocks(l));
      OnlyTrans(data1, data3, data, Blocks(l), Blocks(l3), Blocks(l));
      LiveKeptTrans(hdr1, hdr2, hdr3, l, l2, l3);
      LiveKeptTrans(hdr1, hdr3, hdr, l, l3, l3);
    }

    /** `free` of a block on the heap list, which tiles the heap up to `end`. Everything but `heapTail` is kept for
        every call; `heapTail` stays right exactly when no merge absorbs the last block. */
    method Release(ptr: nat, ghost end: nat)
      requires Listed(end) && (ptr == 0 || (HEADER <= ptr && ptr - HEADER in heap))
      modifies this
      ensures Listed(end) && curr == old(curr) && heapTail == old(heapTail)
      ensures old(Near(hdr, heap, end, heapTail)) ==> Near(hdr, heap, end, heapTail)
      ensures ptr == 0 || old(!Live(ptr - HEADER)) ==> unchanged(this)
      ensures ptr != 0 && old(Live(ptr - HEADER)) ==>
        && Freed(old(hdr), hdr, old(heap), heap, ptr - HEADER)
        && Kept(hdr, data, old(hdr), old(data), heap) && OnlyAt(old(data), data, Blocks(old(heap)))
        && (old(Near(hdr, heap, end, heapTail)) ==>
              (TailOk() <==> old(TailOk()) && !TailAbsorbed(old(hdr), ptr - HEADER)))
    {
      hide Coherent, Pending, LiveKept, Freed, OnlyAt, Store, Kept, Near, TailAbsorbed, Coalesced, Backed, Spread;
      if ptr == 0 { return; }
      var block := ptr - HEADER;
      ghost var hdr0, l, f, data0 := hdr, heap, frees, data;
      ghost var i := IndexOf(l, block);
      StartFree(hdr0, l, f, end, i);
      if hdr[block].size == 0 || block < HEAP_START || block >= HEAP_END { return; }
      if hdr[block].free { return; }
      OnlyNothing(data0, Blocks(l));
      StoreOnly(data0, data, Blocks(l), block, FREE, 1);
      StoreBacked(hdr, data, known, block, FREE, 1);
      hdr, data := hdr[block := hdr[block].(free := true)], Store(data, block + FREE, 1);
      ghost var hdr1, data1 := hdr, data;
      Coalesce(block, end, i);
      OnlyTrans(data0, data1, data, Blocks(l), Blocks(l), Blocks(l));
      OnlyLength(data0, data, Blocks(l));
      FreeEffect(hdr0, hdr1, hdr, l, heap, i);
      FreedKeeps(hdr0, hdr, l, heap, f, end, data0, data, block);
      SameKeys(hdr0, hdr, l, heap, block);
      if Near(hdr0, l, end, heapTail) {
        FreedTail(hdr0, hdr1, hdr, l, f, end, heapTail, i);
        LastAt(l);
      }
    }

    /** `memcpy` between two payloads. */
    method Copy(dst: nat, src: nat, n: nat)
      requires HEAP_START <= dst && HEAP_START <= src && dst - HEAP_START + n <= |data|
      requires src - HEAP_START + n <= |data|
      requires dst + n <= src || src + n <= dst
      modifies this`data
      ensures WritesIn(old(data), data, dst, n) && |data| == |old(data)|
      ensures data[dst - HEAP_START..dst - HEAP_START + n] == old(data)[src - HEAP_START..src - HEAP_START + n]
    {
      var d, s := dst - HEAP_START, src - HEAP_START;
      ghost var data0 := data;
      var i := 0;
      while i < n
        invariant i <= n && Copied(data0, data, d, s, i)
      {
        CopyStep(data0, data, d, s, n, i);
        data := data[d + i := data[s + i]];
        i := i + 1;
      }
    }

    /** `memset` with zero. */
    method Clear(dst: nat, n: nat)
      requires HEAP_START <= dst && dst - HEAP_START + n <= |data|
      modifies this`data
      ensures ZeroedAt(old(data), data, dst, n)
    {
      var d := dst - HEAP_START;
      var i := 0;
      while i < n
        invariant i <= n && |data| == |old(data)|
        invariant forall k: nat | k < |data| :: data[k] == if d <= k < d + i then 0 else old(data)[k]
      {
        data := data[d + i := 0];
        i := i + 1;
      }
    }

    /** The copy and the free of a move, to a block on the list or, at `end`, behind it. `base` is what the memory holds
        as far as the live blocks of an earlier state are concerned. */
    method CopyAndFree(ptr: nat, r: nat, ghost end: nat, ghost hdr0: Headers, ghost l0: seq<nat>, ghost base: seq<int>)
      requires Listed(end) && HEADER <= ptr && HEADER <= r
      requires MoveReady(hdr0, hdr, l0, heap, end, curr, ptr - HEADER, r - HEADER) && Kept(hdr0, base, hdr, data, l0)
      modifies this
      ensures Listed(end) && curr == old(curr) && heapTail == old(heapTail)
      ensures Freed(old(hdr), hdr, old(heap), heap, ptr - HEADER)
      ensures r - HEADER in hdr && hdr[r - HEADER].size == old(hdr)[r - HEADER].size
      ensures Preserved(hdr0, base, l0, hdr, data, ptr - HEADER, r - HEADER)
      ensures old(Near(hdr, heap, end, heapTail)) ==>
        Near(hdr, heap, end, heapTail) && (TailOk() <==> old(TailOk()) && !TailAbsorbed(old(hdr), ptr - HEADER))
    {
      hide Coherent, Payload, Kept, Freed, OnlyAt, Near, TailAbsorbed, Preserved, Backed, Spread, WritesIn;
      ghost var mid, l1, f1, data1, b, nb := hdr, heap, frees, data, ptr - HEADER, r - HEADER;
      assert Disjoint(mid, b, nb);
      assert ptr - HEADER in heap && LiveIn(mid, l1, b);
      Copy(r, ptr, hdr[ptr - HEADER].size);
      ghost var data2 := data;
      CopyEffect(mid, l1, data1, data2, b, nb);
      PayloadWrite(mid, l1, f1, end, data1, data2, nb, hdr[ptr - HEADER].size);
      Release(ptr, end);
      FreedLive(mid, hdr, l1, heap, b);
      if nb == end {
        BehindKept(mid, hdr, l1, heap, f1, end, data2, data, b);
      } else {
        KeptPayload(hdr, data, mid, data2, heap, nb);
      }
      MoveEffect(hdr0, mid, hdr, l0, l1, heap, base, data1, data2, data, b, nb);
    }

    /** The moving case of `realloc`: a block that is too small gives way to a larger one with the same contents.
        `mid` is the state of the headers between the inner `malloc` and the inner `free`. Contents are preserved
        exactly when the inner `malloc` changes no live payload. */
    method Move(ptr: nat, size: nat) returns (r: nat, ghost mid: Headers)
      requires Valid() && TailNear() && HEADER <= ptr && Live(ptr - HEADER) && hdr[ptr - HEADER].size < size
      requires size + 7 <= MAX_REQUEST
      modifies this
      ensures r == 0 <==> old(WillRefuse(size))
      ensures r == 0 ==> unchanged(this)
      ensures Valid() <==> !old(WillLose(size))
      ensures !old(WillLose(size)) ==> TailNear()
      ensures r != 0 ==> HEADER <= r && r - HEADER in hdr && size <= hdr[r - HEADER].size
      ensures r != 0 && !old(WillLose(size)) ==> Moved(old(hdr), hdr, old(heap), heap, ptr - HEADER, r - HEADER)
      ensures old(WillLose(size)) ==>
        && LostMove(old(hdr), hdr, old(heap), heap, old(curr), curr, ptr - HEADER, r - HEADER)
        && Listed(old(curr))
      ensures r != 0 ==>
        (Preserved(old(hdr), old(data), old(heap), hdr, data, ptr - HEADER, r - HEADER) <==>
           !old(WillHarm(size)))
      ensures r != 0 && old(TailOk()) ==> ptr - HEADER in mid && (TailOk() <==> !TailAbsorbed(mid, ptr - HEADER))
    {
      hide Coherent, Taken, Made, Payload, Kept, Spared, TailStored, Freed, Near, TailAbsorbed, Preserved;
      hide NoFit, Allocated, HeapList;
      hide SameLive, Moved, LostMove, MoveReady, BestFit, Backed, Spread;
      ghost var hdr0, l0, f0, data0, b, end0, tail0 := hdr, heap, frees, data, ptr - HEADER, curr, heapTail;
      ghost var fits := !WillMake(size);
      TailStoreMeaning(hdr0, l0, f0, end0, data0, tail0);
      RightTailSpared(hdr0, data0, l0, tail0, end0);
      ghost var n;
      r, n := Malloc(size);
      mid := hdr;
      if r == 0 { return; }
      ghost var nb, l1, kept := r - HEADER, heap, !old(WillLose(size));
      ghost var end, base := if kept then curr else end0, if fits then data0 else TailStored(data0, tail0, end0);
      if kept {
        AllocatedFrom(hdr0, mid, l0, l1, nb, n, Align8(size));
        MoveListed(hdr0, mid, l0, l1, frees, curr, b, nb);
      } else {
        MoveLost(hdr0, mid, l0, f0, end0, curr, b);
      }
      CopyAndFree(ptr, r, end, hdr0, l0, base);
      if kept {
        MovedFrom(hdr0, mid, hdr, l0, l1, heap, b, nb);
      } else {
        LostFrom(hdr0, mid, hdr, l0, heap, frees, end0, curr, b);
        LostMeans(hdr0, hdr, l0, heap, end0, curr, b, nb);
        NoWhole(hdr, heap, frees, curr);
      }
      if !fits { PreservedIff(hdr0, data0, base, l0, hdr, data, b, nb); }
    }

    /** `realloc` */
    method Realloc(ptr: nat, size: nat) returns (r: nat, ghost mid: Headers)
      requires Valid() && TailNear() && (ptr == 0 || (HEADER <= ptr && Live(ptr - HEADER))) && size + 7 <= MAX_REQUEST
      modifies this
      ensures Valid() <==>
        !(old(WillLose(size)) && (ptr == 0 || old(hdr)[ptr - HEADER].size < size))
      ensures Valid() ==> TailNear()
      ensures !Valid() ==> Listed(old(curr)) && forall l :: !HeapList(hdr, l, curr)
      ensures ptr == 0 && r == 0 ==> unchanged(this)
      ensures ptr == 0 && r != 0 ==> HEADER <= r && r - HEADER in hdr && size <= hdr[r - HEADER].size
      ensures ptr == 0 && r != 0 && !old(WillLose(size)) ==> Allocated(old(hdr), hdr, old(heap), heap, r - HEADER)
      ensures ptr == 0 ==>
        (Kept(old(hdr), old(data), hdr, data, old(heap)) <==>
           !old(WillHarm(size)))
      ensures ptr != 0 && size == 0 ==>
        && r == 0 && Freed(old(hdr), hdr, old(heap), heap, ptr - HEADER)
        && Kept(hdr, data, old(hdr), old(data), heap)
      ensures ptr != 0 && 0 < size <= old(hdr)[ptr - HEADER].size ==> r == ptr && unchanged(this)
      ensures ptr != 0 && old(hdr)[ptr - HEADER].size < size && r == 0 ==> unchanged(this)
      ensures ptr != 0 && old(hdr)[ptr - HEADER].size < size && r != 0 ==>
        && HEADER <= r && r - HEADER in hdr && size <= hdr[r - HEADER].size
        && (!old(WillLose(size)) ==> Moved(old(hdr), hdr, old(heap), heap, ptr - HEADER, r - HEADER))
        && (old(WillLose(size)) ==> LostMove(old(hdr), hdr, old(heap), heap, old(curr), curr, ptr - HEADER, r - HEADER))
        && (Preserved(old(hdr), old(data), old(heap), hdr, data, ptr - HEADER, r - HEADER) <==>
              !old(WillHarm(size)))
    {
      hide Coherent, Taken, Made, Payload, Moved, LostMove, Freed, Kept, Preserved, Spared, HeapList;
      hide TailStored, NoFit, SameLive, Near, Backed, Spread;
      mid := hdr;
      if ptr == 0 {
        ghost var hdr0, l0, n := hdr, heap, 0;
        r, n := Malloc(size);
        if r != 0 && !old(WillLose(size)) { AllocatedFrom(hdr0, hdr, l0, heap, r - HEADER, n, Align8(size)); }
        return;
      }
      if size == 0 {
        Release(ptr, curr);
        return 0, mid;
      }
      if hdr[ptr - HEADER].size >= size {
        return ptr, mid;
      }
      ghost var hdr0, l0, end0 := hdr, heap, curr;
      r, mid := Move(ptr, size);
      if old(WillLose(size)) { LostMeans(hdr0, hdr, l0, heap, end0, curr, ptr - HEADER, r - HEADER); }
    }

    /** A byte store by the owner of a live block, anywhere in its payload. */
    method StoreByte(ptr: nat, i: nat, v: int, ghost end: nat)
      requires Listed(end) && HEADER <= ptr && Live(ptr - HEADER) && i < hdr[ptr - HEADER].size
      modifies this`data
      ensures Listed(end) && HEAP_START <= ptr && ptr - HEAP_START + i < |data|
      ensures data == old(data)[ptr - HEAP_START + i := v]
      ensures forall x | Live(x) && x != ptr - HEADER :: Payload(hdr, data, x) == old(Payload(hdr, data, x))
    {
      hide Coherent, Backed, Spread, WritesIn, Payload;
      ghost var data1, b := data, ptr - HEADER;
      ClearRange(hdr, heap, frees, end, b);
      data := data[ptr - HEAP_START + i := v];
      ByteWrites(data1, ptr, hdr[b].size, i, v);
      PayloadWrite(hdr, heap, frees, end, data1, data, b, hdr[b].size);
      OthersKept(hdr, heap, frees, end, data1, data, b);
    }

    /** `memset` by the owner of a live block. */
    method ClearOwn(ptr: nat, n: nat, ghost end: nat)
      requires Listed(end) && HEADER <= ptr && Live(ptr - HEADER) && n <= hdr[ptr - HEADER].size
      modifies this`data
      ensures Listed(end) && ZeroedAt(old(data), data, ptr, n)
    {
      hide Coherent, Backed, Spread, WritesIn, ZeroedAt;
      ghost var data1, b := data, ptr - HEADER;
      ClearRange(hdr, heap, frees, end, b);
      Clear(ptr, n);
      ZeroedWrites(data1, data, ptr, n);
      PayloadWrite(hdr, heap, frees, end, data1, data, b, n);
    }

    /** The `memset` of `calloc` on a block that lies apart from the blocks live before. */
    method ClearNew(ptr: nat, n: nat, ghost end: nat, ghost hdr0: Headers, ghost l0: seq<nat>, ghost data0: seq<int>)
      requires HEADER <= ptr && ptr - HEADER in hdr && n <= hdr[ptr - HEADER].size && HEAP_START <= ptr - HEADER
      requires End(hdr, ptr - HEADER) <= HEAP_START + |data| && AllDisjoint(hdr0, l0, hdr, ptr - HEADER)
      requires Listed(end) && (ptr - HEADER == end || ptr - HEADER in heap)
      modifies this`data
      ensures Listed(end) && |data| == |old(data)| && Cleared(Payload(hdr, data, ptr - HEADER), n)
      ensures Kept(hdr0, data0, hdr, data, l0) <==> Kept(hdr0, data0, hdr, old(data), l0)
    {
      hide AllDisjoint, Cleared, Payload, Kept, ZeroedAt, Coherent, Backed, Spread, WritesIn;
      ghost var data1 := data;
      Clear(ptr, n);
      ZeroedWrites(data1, data, ptr, n);
      PayloadWrite(hdr, heap, frees, end, data1, data, ptr - HEADER, n);
      ClearEffect(hdr0, hdr, l0, data0, data1, data, ptr - HEADER, n);
    }

    /** The part of `calloc` behind its overflow check: `malloc` and `memset`. */
    method AllocateCleared(total: nat) returns (ptr: nat)
      requires Valid() && TailNear() && total + 7 <= MAX_REQUEST
      modifies this
      ensures Valid() <==> !old(WillLose(total))
      ensures !old(WillLose(total)) ==> TailNear() && (old(TailOk()) ==> TailOk())
      ensures ptr == 0 <==> old(WillRefuse(total))
      ensures ptr == 0 ==> unchanged(this)
      ensures ptr != 0 && !old(WillLose(total)) ==>
        && HEADER <= ptr && Allocated(old(hdr), hdr, old(heap), heap, ptr - HEADER)
      ensures ptr != 0 ==> HEADER <= ptr && Cleared(Payload(hdr, data, ptr - HEADER), total)
      ensures Kept(old(hdr), old(data), hdr, data, old(heap)) <==>
        !old(WillHarm(total))
    {
      hide Coherent, Taken, Made, Payload, Kept, Spared, TailStored, Near, NoFit, HeapList, SameLive;
      hide AllDisjoint, Allocated, BestFit, Cleared, Backed, Spread;
      ghost var hdr0, l0, f0, data0, end0, n := hdr, heap, frees, data, curr, 0;
      ptr, n := Malloc(total);
      if ptr == 0 { return; }
      ghost var b, listed := ptr - HEADER, !old(WillLose(total));
      ClearReady(hdr0, hdr, l0, heap, f0, frees, end0, curr, b, n, Align8(total), listed);
      ClearNew(ptr, total, if listed then curr else end0, hdr0, l0, data0);
    }

    /** `calloc` */
    method Calloc(nmemb: nat, size: nat) returns (ptr: nat)
      requires Valid() && TailNear() && nmemb <= SIZE_MAX && size <= SIZE_MAX
      requires nmemb * size <= SIZE_MAX ==> nmemb * size + 7 <= MAX_REQUEST
      modifies this
      ensures ptr == 0 <==> nmemb * size > SIZE_MAX || old(WillRefuse(nmemb * size))
      ensures Valid() <==> nmemb * size > SIZE_MAX || !old(WillLose(nmemb * size))
      ensures Valid() ==> TailNear() && (old(TailOk()) ==> TailOk())
      ensures ptr == 0 ==> unchanged(this)
      ensures ptr != 0 && !old(WillLose(nmemb * size)) ==>
        && HEADER <= ptr && Allocated(old(hdr), hdr, old(heap), heap, ptr - HEADER)
      ensures ptr != 0 ==> HEADER <= ptr && Cleared(Payload(hdr, data, ptr - HEADER), nmemb * size)
      ensures Kept(old(hdr), old(data), hdr, data, old(heap)) <==>
        nmemb * size > SIZE_MAX || !old(WillHarm(nmemb * size))
    {
      hide Coherent, Payload, Allocated, Cleared, Kept, Spared, NoFit, Taken, Made, HeapList, TailStored;
      hide Backed, Spread;
      KeptItself(hdr, data, heap);
      if nmemb == 0 || size == 0 {
        ghost var n;
        ptr, n := Malloc(0);
        return;
      }
      Product(nmemb, size);
      if nmemb > SIZE_MAX / size {
        return 0;
      }
      ptr := AllocateCleared(nmemb * size);
    }
  }

  lemma PairLinks(hdr: Headers, l: seq<nat>, f: seq<nat>, end: nat, a: nat, b: nat)
    requires Coherent(hdr, l, f, end) && l == [a, b]
    ensures a in hdr && b in hdr && hdr[a].next == b && hdr[a].prev == 0 && hdr[b].next == 0 && hdr[b].prev == a
    ensures 0 < a < b
  {
    Distinct(hdr, l, end);
    Ordered(hdr, l, end, 0, 1);
    assert BlockOk(hdr, l, end, 0) && BlockOk(hdr, l, end, 1);
  }

  lemma Member(l: seq<nat>, k: nat)
    requires k < |l|
    ensures l[k] in l
  {
  }

  /** A heap list that starts at `a` and holds only `a` and `b`. */
  lemma AtMostPair(hdr: Headers, l: seq<nat>, f: seq<nat>, end: nat, a: nat, b: nat)
    requires Coherent(hdr, l, f, end) && end != HEAP_START && a == HEAP_START && a != b
    requires forall x | x in l :: x == a || x == b
    ensures l == [a] || l == [a, b]
  {
    Distinct(hdr, l, end);
    assert l[0] == a;
    assert forall x | x in l :: x == a || x == b;
    Member(l, 0);
    if 1 < |l| { Member(l, 1); }
    if 2 < |l| {
      Member(l, 2);
      assert false;
    }
  }

  lemma AllLive(hdr: Headers, l: seq<nat>, f: seq<nat>, end: nat)
    requires Coherent(hdr, l, f, end) && forall x | x in l :: LiveIn(hdr, l, x)
    ensures f == []
  {
    if f != [] {
      Member(f, 0);
      assert false;
    }
  }

  lemma SmallHeap(hdr: Headers, l: seq<nat>, f: seq<nat>, end: nat, size: nat)
    requires Coherent(hdr, l, f, end) && end < HEAP_START + HEADER + size
    ensures NoFit(hdr, f, size)
  {
    Distinct(hdr, l, end);
  }

  /** Two adjacent blocks, both live. */
  method TwoBlocks(bytes: seq<int>) returns (m: Allocator)
    requires |bytes| == HEAP_BYTES
    ensures fresh(m) && m.Valid() && m.TailOk() && m.TailNear() && m.heap == [HEAP_START, HEAP_START + 32]
    ensures m.curr == HEAP_START + 64
    ensures m.Live(HEAP_START) && m.Live(HEAP_START + 32)
  {
    hide Coherent, Taken, Backed, Spread;
    m := new Allocator(bytes);
    ghost var n;
    var p, q;
    AllLive(m.hdr, m.heap, m.frees, m.curr);
    p, n := m.Malloc(8);
    AllLive(m.hdr, m.heap, m.frees, m.curr);
    assert m.heap == [HEAP_START] && m.curr == HEAP_START + 32;
    q, n := m.Malloc(8);
  }

  lemma NotBoth(hdr: Headers, l: seq<nat>, f: seq<nat>, end: nat)
    requires Coherent(hdr, l, f, end) && |l| == 2
    ensures LiveIn(hdr, l, l[0]) || LiveIn(hdr, l, l[1])
  {
    Distinct(hdr, l, end);
    assert Apart(hdr, l, 0);
  }

  lemma TwoDiffer(q: seq<nat>)
    requires NoRepeat(q) && |q| > 1
    ensures q[0] != q[1] && q[0] in q && q[1] in q
  {
  }

  /** A heap of one block. */
  lemma OneBlock(hdr: Headers, l: seq<nat>, f: seq<nat>, end: nat, a: nat)
    requires Coherent(hdr, l, f, end) && l == [a]
    ensures a in hdr && End(hdr, a) == end && NoRepeat(f) && (forall x | x in f :: x == a) && (a in f <==> hdr[a].free)
  {
    Distinct(hdr, l, end);
    assert BlockOk(hdr, l, end, 0);
    assert a in l;
  }

  /** Two free blocks next to each other are one block. */
  lemma OnlyOne(hdr: Headers, l: seq<nat>, f: seq<nat>, end: nat, a: nat, b: nat)
    requires Coherent(hdr, l, f, end) && (l == [a] || l == [a, b]) && forall x | x in l :: !LiveIn(hdr, l, x)
    ensures l == [a] && f == [a] && a in hdr && hdr[a].free && End(hdr, a) == end
  {
    hide Coherent, NoRepeat;
    if l == [a, b] {
      NotBoth(hdr, l, f, end);
      assert false;
    }
    OneBlock(hdr, l, f, end, a);
    assert a in l;
    if |f| > 1 {
      TwoDiffer(f);
      assert false;
    }
  }

  /** Two blocks allocated and freed in address order: one free block, and `heapTail` inside it. */
  method MergedPair(bytes: seq<int>) returns (m: Allocator)
    requires |bytes| == HEAP_BYTES
    ensures fresh(m) && m.Valid() && m.TailNear() && m.heap == [HEAP_START] && m.frees == [HEAP_START]
    ensures m.curr == HEAP_START + 64 && m.heapTail == HEAP_START + 32
    ensures HEAP_START in m.hdr && m.hdr[HEAP_START].free && m.hdr[HEAP_START].size == 40
  {
    hide Coherent, OnlyHeaders, HeapList, OnlyAt, Kept, Backed, Spread;
    m := TwoBlocks(bytes);
    ghost var a, b := HEAP_START, HEAP_START + 32;
    PairLinks(m.hdr, m.heap, m.frees, m.curr, a, b);
    m.Release(HEAP_START + HEADER, m.curr);
    AtMostPair(m.hdr, m.heap, m.frees, m.curr, a, b);
    PairLinks(m.hdr, m.heap, m.frees, m.curr, a, b);
    m.Release(HEAP_START + 32 + HEADER, m.curr);
    AtMostPair(m.hdr, m.heap, m.frees, m.curr, a, b);
    OnlyOne(m.hdr, m.heap, m.frees, m.curr, a, b);
  }

  /** After that run, the next new block is on no list that tiles the heap. */
  method StaleTailRun(bytes: seq<int>) returns (m: Allocator, lost: nat)
    requires |bytes| == HEAP_BYTES
    ensures lost != 0 && !m.Valid() && forall l :: !HeapList(m.hdr, l, m.curr)
  {
    hide Coherent, HeapList, Kept, Spared, Near, Backed, Spread;
    m := MergedPair(bytes);
    SmallHeap(m.hdr, m.heap, m.frees, m.curr, 64);
    ghost var n;
    lost, n := m.Malloc(64);
  }

  lemma SingleTaken(hdr: Headers, hdr': Headers, l: seq<nat>, f': seq<nat>, end: nat, a: nat, n: nat, aligned: nat)
    requires Taken(hdr, hdr', [a], l, a, n, aligned) && Coherent(hdr', l, f', end) && hdr[a].size == aligned
    ensures n == a && l == [a] && f' == [] && LiveIn(hdr', l, a) && hdr'[a].size == aligned
  {
    hide Coherent, NoRepeat, Taken;
    TakenSole(hdr, hdr', l, a, n, aligned);
    NoRepeats(hdr', l, f', end);
    if |l| > 1 {
      TwoDiffer(l);
      assert false;
    }
    OneBlock(hdr', l, f', end, a);
    if f' != [] {
      Member(f', 0);
      assert false;
    }
  }

  lemma NoRepeats(hdr: Headers, l: seq<nat>, f: seq<nat>, end: nat)
    requires Coherent(hdr, l, f, end)
    ensures NoRepeat(l)
  {
    Distinct(hdr, l, end);
  }

  lemma TakenSole(hdr: Headers, hdr': Headers, l: seq<nat>, a: nat, n: nat, aligned: nat)
    requires Taken(hdr, hdr', [a], l, a, n, aligned) && hdr[a].size == aligned
    ensures n == a && LiveIn(hdr', l, a) && hdr'[a].size == aligned && forall x | x in l :: x == a
  {
  }

  lemma Corrupted(hdr: Headers, data: seq<int>, hdr': Headers, data': seq<int>, a: nat)
    requires !Kept(hdr, data, hdr', data', [a])
    ensures Payload(hdr', data', a) != Payload(hdr, data, a)
  {
  }

  lemma NotSpared(hdr: Headers, data: seq<int>, a: nat)
    requires a == HEAP_START && LiveIn(hdr, [a], a) && |data| == HEAP_BYTES && data[40] == 0
    ensures !Spared(hdr, data, [a], a + 32, a + 64)
  {
    assert data[40..44][0] == 0 && Word(a + 64)[0] == 0x40;
  }

  /** And when the merged block is reused first, the next new block changes its payload: `before` is the payload of `r`,
      cleared by its owner, just before the last allocation. */
  method CorruptingRun(bytes: seq<int>) returns (m: Allocator, r: nat, ghost before: seq<int>)
    requires |bytes| == HEAP_BYTES
    ensures HEADER <= r && Cleared(before, 40) && |before| == 40
    ensures LiveIn(m.hdr, m.heap, r - HEADER) && Payload(m.hdr, m.data, r - HEADER) != before
  {
    hide Coherent, HeapList, Kept, Spared, Near, TailStored, Backed, Spread;
    m := MergedPair(bytes);
    ghost var a, hdr0, n := HEAP_START, m.hdr, 0;
    r, n := m.Malloc(40);
    SingleTaken(hdr0, m.hdr, m.heap, m.frees, m.curr, a, n, 40);
    m.ClearOwn(r, 40, m.curr);
    before := Payload(m.hdr, m.data, a);
    NotSpared(m.hdr, m.data, a);
    SmallHeap(m.hdr, m.heap, m.frees, m.curr, 48);
    ghost var hdr1, data1 := m.hdr, m.data;
    var last;
    last, n := m.Malloc(48);
    Corrupted(hdr1, data1, m.hdr, m.data, a);
  }
}
