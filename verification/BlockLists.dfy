/** The two intrusive lists of the user-space allocator: the address-ordered heap list, whose blocks
    tile the used part of the heap, and the free list. Headers are stored by block address; 0 is null. */
module BlockLists {
  import opened Sequences
  import opened UserSpace

  datatype Header = Header(size: nat, free: bool, next: nat, prev: nat, nextFree: nat, prevFree: nat)

  type Headers = map<nat, Header>

  const HEADER: nat := 24

  /** The end of the block at `b`. */
  function End(hdr: Headers, b: nat): nat
    requires b in hdr
  {
    b + HEADER + hdr[b].size
  }

  /** The element at `i`, or null outside the list. */
  function At(l: seq<nat>, i: int): nat {
    if 0 <= i < |l| then l[i] else 0
  }

  // ----- heap list ------------------------------------------------------------------

  ghost predicate BlockOk(hdr: Headers, l: seq<nat>, end: nat, i: nat)
    requires i < |l|
  {
    var b := l[i];
    && b in hdr
    && 8 <= hdr[b].size && hdr[b].size % 8 == 0
    && End(hdr, b) == (if i + 1 < |l| then l[i + 1] else end)
    && hdr[b].next == At(l, i + 1)
    && hdr[b].prev == At(l, i - 1)
  }

  /** The blocks of `l` tile `[HEAP_START, end)` and are linked both ways in that order. */
  ghost predicate HeapList(hdr: Headers, l: seq<nat>, end: nat) {
    && (if l == [] then end == HEAP_START else l[0] == HEAP_START)
    && forall i: nat {:trigger BlockOk(hdr, l, end, i)} | i < |l| :: BlockOk(hdr, l, end, i)
  }

  lemma {:induction false} FromStart(hdr: Headers, l: seq<nat>, end: nat, i: nat)
    requires HeapList(hdr, l, end) && i < |l|
    ensures HEAP_START <= l[i] && l[i] % 8 == 0
  {
    if i > 0 {
      FromStart(hdr, l, end, i - 1);
      assert BlockOk(hdr, l, end, i - 1);
    }
  }

  lemma {:induction false} ToEnd(hdr: Headers, l: seq<nat>, end: nat, i: nat)
    requires HeapList(hdr, l, end) && i < |l|
    ensures l[i] in hdr && End(hdr, l[i]) <= end
    decreases |l| - i
  {
    assert BlockOk(hdr, l, end, i);
    if i + 1 < |l| {
      ToEnd(hdr, l, end, i + 1);
    }
  }

  /** Later blocks start after earlier ones end. */
  lemma {:induction false} Ordered(hdr: Headers, l: seq<nat>, end: nat, i: nat, j: nat)
    requires HeapList(hdr, l, end) && i < j < |l|
    ensures l[i] in hdr && End(hdr, l[i]) <= l[j]
    decreases j - i
  {
    assert BlockOk(hdr, l, end, i);
    if i + 1 < j {
      Ordered(hdr, l, end, i + 1, j);
      assert BlockOk(hdr, l, end, i + 1);
    }
  }

  /** Every block is a proper, aligned, non-null address, and no block occurs twice. */
  lemma Distinct(hdr: Headers, l: seq<nat>, end: nat)
    requires HeapList(hdr, l, end)
    ensures forall i, j | 0 <= i < j < |l| :: l[i] != l[j]
    ensures forall i | 0 <= i < |l| :: l[i] in hdr && HEAP_START <= l[i] && l[i] % 8 == 0 && End(hdr, l[i]) <= end
  {
    forall i: nat, j: nat | i < j < |l|
      ensures l[i] != l[j]
    {
      Ordered(hdr, l, end, i, j);
    }
    forall i: nat | i < |l|
      ensures l[i] in hdr && HEAP_START <= l[i] && l[i] % 8 == 0 && End(hdr, l[i]) <= end
    {
      FromStart(hdr, l, end, i);
      ToEnd(hdr, l, end, i);
    }
  }

  /** The fields the heap list depends on. */
  ghost predicate SameHeapLinks(h: Header, h': Header) {
    h'.size == h.size && h'.next == h.next && h'.prev == h.prev
  }

  ghost predicate SameFreeLinks(h: Header, h': Header) {
    h'.nextFree == h.nextFree && h'.prevFree == h.prevFree
  }

  lemma HeapListFrame(hdr: Headers, hdr': Headers, l: seq<nat>, end: nat)
    requires HeapList(hdr, l, end)
    requires forall b | b in l && b in hdr :: b in hdr' && SameHeapLinks(hdr[b], hdr'[b])
    ensures HeapList(hdr', l, end)
  {
    forall i: nat | i < |l|
      ensures BlockOk(hdr', l, end, i)
    {
      assert BlockOk(hdr, l, end, i) && l[i] in l;
    }
  }

  /** A new block appended at the end of the used range. */
  lemma Appended(hdr: Headers, hdr': Headers, l: seq<nat>, end: nat, size: nat)
    requires HeapList(hdr, l, end) && 8 <= size && size % 8 == 0
    requires end in hdr' && hdr'[end].size == size && hdr'[end].next == 0 && hdr'[end].prev == At(l, |l| - 1)
    requires forall i: nat | i < |l| - 1 && l[i] in hdr :: l[i] in hdr' && SameHeapLinks(hdr[l[i]], hdr'[l[i]])
    requires l != [] && l[|l| - 1] in hdr ==>
      var t := l[|l| - 1]; t in hdr' && hdr'[t].next == end && SameHeapLinks(hdr[t], hdr'[t].(next := hdr[t].next))
    ensures HeapList(hdr', l + [end], end + HEADER + size)
  {
    var l', end' := l + [end], end + HEADER + size;
    forall i: nat | i < |l'|
      ensures BlockOk(hdr', l', end', i)
    {
      if i < |l| { assert BlockOk(hdr, l, end, i); }
    }
  }

  /** Block `i` shrunk to `size`, the rest of it becoming a block of its own. */
  lemma Divided(hdr: Headers, hdr': Headers, l: seq<nat>, end: nat, i: nat, size: nat)
    requires HeapList(hdr, l, end) && i < |l| && l[i] in hdr
    requires 8 <= size && size % 8 == 0 && size + HEADER + 8 <= hdr[l[i]].size
    requires var b := l[i]; var n := b + HEADER + size;
      && b in hdr' && n in hdr'
      && hdr'[b].size == size && hdr'[b].next == n && hdr'[b].prev == hdr[b].prev
      && hdr'[n].size == hdr[b].size - size - HEADER && hdr'[n].next == hdr[b].next && hdr'[n].prev == b
      && (i + 1 < |l| ==> var x := l[i + 1];
            x in hdr ==> x in hdr' && hdr'[x].prev == n && SameHeapLinks(hdr[x], hdr'[x].(prev := hdr[x].prev)))
      && forall j: nat | j < |l| && j != i && j != i + 1 && l[j] in hdr ::
           l[j] in hdr' && SameHeapLinks(hdr[l[j]], hdr'[l[j]])
    ensures HeapList(hdr', l[..i + 1] + [l[i] + HEADER + size] + l[i + 1..], end)
  {
    var l' := l[..i + 1] + [l[i] + HEADER + size] + l[i + 1..];
    assert BlockOk(hdr, l, end, i);
    forall j: nat | j < |l'|
      ensures BlockOk(hdr', l', end, j)
    {
      if j < i {
        assert BlockOk(hdr, l, end, j);
      } else if j > i + 1 {
        assert BlockOk(hdr, l, end, j - 1) && l'[j] == l[j - 1];
      }
    }
  }

  /** Block `i` extended over its successor. */
  lemma Merged(hdr: Headers, hdr': Headers, l: seq<nat>, end: nat, i: nat)
    requires HeapList(hdr, l, end) && i + 1 < |l| && l[i] in hdr && l[i + 1] in hdr
    requires var b, x := l[i], l[i + 1];
      && b in hdr' && hdr'[b].size == hdr[b].size + HEADER + hdr[x].size
      && hdr'[b].next == hdr[x].next && hdr'[b].prev == hdr[b].prev
      && (i + 2 < |l| ==> var y := l[i + 2];
            y in hdr ==> y in hdr' && hdr'[y].prev == b && SameHeapLinks(hdr[y], hdr'[y].(prev := hdr[y].prev)))
      && forall j: nat | j < |l| && j != i && j != i + 1 && j != i + 2 && l[j] in hdr ::
           l[j] in hdr' && SameHeapLinks(hdr[l[j]], hdr'[l[j]])
    ensures HeapList(hdr', l[..i + 1] + l[i + 2..], end)
  {
    var l' := l[..i + 1] + l[i + 2..];
    assert BlockOk(hdr, l, end, i) && BlockOk(hdr, l, end, i + 1);
    forall j: nat | j < |l'|
      ensures BlockOk(hdr', l', end, j)
    {
      if j < i {
        assert BlockOk(hdr, l, end, j);
      } else if j > i {
        assert BlockOk(hdr, l, end, j + 1) && l'[j] == l[j + 1];
      }
    }
  }

  // ----- free list ------------------------------------------------------------------

  ghost predicate NodeOk(hdr: Headers, f: seq<nat>, i: nat)
    requires i < |f|
  {
    f[i] != 0 && f[i] in hdr && hdr[f[i]].nextFree == At(f, i + 1) && hdr[f[i]].prevFree == At(f, i - 1)
  }

  /** `f` is the acyclic, doubly linked list that starts at `f[0]`. */
  ghost predicate FreeList(hdr: Headers, f: seq<nat>) {
    && NoRepeat(f)
    && forall i: nat {:trigger NodeOk(hdr, f, i)} | i < |f| :: NodeOk(hdr, f, i)
  }

  lemma FreeListFrame(hdr: Headers, hdr': Headers, f: seq<nat>)
    requires FreeList(hdr, f)
    requires forall b | b in f && b in hdr :: b in hdr' && SameFreeLinks(hdr[b], hdr'[b])
    ensures FreeList(hdr', f)
  {
    forall i: nat | i < |f|
      ensures NodeOk(hdr', f, i)
    {
      assert NodeOk(hdr, f, i) && f[i] in f;
    }
  }

  /** A block put in front of the list. */
  lemma Pushed(hdr: Headers, hdr': Headers, f: seq<nat>, b: nat)
    requires FreeList(hdr, f) && b !in f && b != 0
    requires b in hdr' && hdr'[b].nextFree == At(f, 0) && hdr'[b].prevFree == 0
    requires forall i: nat | i < |f| && f[i] in hdr ::
      && f[i] in hdr' && hdr'[f[i]].nextFree == hdr[f[i]].nextFree
      && hdr'[f[i]].prevFree == if i == 0 then b else hdr[f[i]].prevFree
    ensures FreeList(hdr', [b] + f)
  {
    var f' := [b] + f;
    forall i: nat | i < |f'|
      ensures NodeOk(hdr', f', i)
    {
      if i > 0 { assert NodeOk(hdr, f, i - 1) && f'[i] == f[i - 1]; }
    }
  }

  /** The list without its element `k`. */
  function Without(f: seq<nat>, k: nat): seq<nat>
    requires k < |f|
  {
    f[..k] + f[k + 1..]
  }

  /** Element `k` bridged over by its neighbours. */
  lemma Unlinked(hdr: Headers, hdr': Headers, f: seq<nat>, k: nat)
    requires FreeList(hdr, f) && k < |f|
    requires forall i: nat | i < |f| && i != k && f[i] in hdr ::
      && f[i] in hdr'
      && hdr'[f[i]].nextFree == (if i + 1 == k then At(f, k + 1) else hdr[f[i]].nextFree)
      && hdr'[f[i]].prevFree == (if i == k + 1 then At(f, k - 1) else hdr[f[i]].prevFree)
    ensures FreeList(hdr', Without(f, k)) && f[k] !in Without(f, k)
    ensures forall b :: b in Without(f, k) <==> b in f && b != f[k]
  {
    var f' := Without(f, k);
    forall i: nat | i < |f'|
      ensures NodeOk(hdr', f', i)
    {
      var j := if i < k then i else i + 1;
      assert NodeOk(hdr, f, j) && f'[i] == f[j];
    }
    forall b | b in f && b != f[k]
      ensures b in f'
    {
      var i: nat :| i < |f| && f[i] == b;
      assert f'[if i < k then i else i - 1] == b;
    }
  }

  // ----- both lists together ----------------------------------------------------------

  /** Blocks `i` and `i + 1` are not both free. */
  ghost predicate Apart(hdr: Headers, l: seq<nat>, i: nat)
    requires i + 1 < |l|
  {
    l[i] in hdr && l[i + 1] in hdr ==> !(hdr[l[i]].free && hdr[l[i + 1]].free)
  }

  /** The free list holds exactly the free blocks of the heap list. */
  ghost predicate Matches(hdr: Headers, l: seq<nat>, f: seq<nat>) {
    forall b :: b in f <==> b in l && b in hdr && hdr[b].free
  }

  ghost predicate Coherent(hdr: Headers, l: seq<nat>, f: seq<nat>, end: nat) {
    && 0 !in hdr && HeapList(hdr, l, end) && FreeList(hdr, f) && Matches(hdr, l, f)
    && forall i: nat {:trigger Apart(hdr, l, i)} | i + 1 < |l| :: Apart(hdr, l, i)
  }

  /** Only the headers at the addresses of `s` may differ. */
  ghost predicate OnlyHeaders(hdr: Headers, hdr': Headers, s: set<nat>) {
    forall b | b !in s :: (b in hdr <==> b in hdr') && (b in hdr ==> hdr'[b] == hdr[b])
  }

  /** An address strictly inside a block is not the address of a block. */
  lemma Inside(hdr: Headers, l: seq<nat>, end: nat, i: nat, n: nat)
    requires HeapList(hdr, l, end) && i < |l| && l[i] in hdr && l[i] < n < End(hdr, l[i])
    ensures n !in l
  {
    forall j: nat | j < |l|
      ensures l[j] != n
    {
      if i < j {
        Ordered(hdr, l, end, i, j);
      } else if j < i {
        Ordered(hdr, l, end, j, i);
      }
    }
  }

  /** Live payloads are pairwise disjoint, and no header of any block lies in one. */
  lemma PayloadsDisjoint(hdr: Headers, l: seq<nat>, end: nat, a: nat, b: nat)
    requires HeapList(hdr, l, end) && a in l && b in l && a != b
    ensures a in hdr && b in hdr
    ensures End(hdr, a) <= b || End(hdr, b) <= a
  {
    var i: nat :| i < |l| && l[i] == a;
    var j: nat :| j < |l| && l[j] == b;
    if i < j {
      Ordered(hdr, l, end, i, j);
      assert BlockOk(hdr, l, end, j);
    } else {
      Ordered(hdr, l, end, j, i);
      assert BlockOk(hdr, l, end, i);
    }
  }

  /** The links determine the heap list, hence also where it ends. */
  lemma {:induction false} SameWalk(hdr: Headers, l: seq<nat>, end: nat, l': seq<nat>, end': nat, i: nat)
    requires HeapList(hdr, l, end) && HeapList(hdr, l', end') && 0 !in hdr
    requires l != [] && l' != [] && i < |l|
    ensures i < |l'| && l[i] == l'[i]
  {
    if i > 0 {
      SameWalk(hdr, l, end, l', end', i - 1);
      assert BlockOk(hdr, l, end, i - 1) && BlockOk(hdr, l', end', i - 1) && BlockOk(hdr, l, end, i);
    }
  }

  lemma UniqueEnd(hdr: Headers, l: seq<nat>, end: nat, l': seq<nat>, end': nat)
    requires HeapList(hdr, l, end) && HeapList(hdr, l', end') && 0 !in hdr && l != []
    ensures l' != [] ==> end == end'
  {
    if l' != [] {
      SameWalk(hdr, l, end, l', end', |l| - 1);
      SameWalk(hdr, l', end', l, end, |l'| - 1);
      assert BlockOk(hdr, l, end, |l| - 1) && BlockOk(hdr, l', end', |l'| - 1);
    }
  }
}
