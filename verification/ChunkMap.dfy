/** The kernel heap seen as a map of 4 KiB chunks: what an allocation and a release
    mean, independently of the headers and links that `heap.c` keeps in memory. */
module ChunkMap {

  /** One 4 KiB chunk: a free unit block, the first chunk of an allocated block of
      `span` chunks, or a later chunk of such a block. */
  datatype Cell = Free | Head(span: nat) | Body

  type Chunks = seq<Cell>

  const PAGE_CHUNKS: nat := 1024
  const MAX_CHUNKS: nat := 7168 // (KERNEL_HEAP_MAX + 1 - KERNEL_HEAP_START) / 4096

  function Span(c: Cell): nat {
    match c
    case Free => 1
    case Head(k) => k
    case Body => 0
  }

  /** The block at `c` ends inside the map, at another block or at the end, and covers only bodies. */
  ghost predicate BlockOk(m: Chunks, c: nat)
    requires c < |m|
  {
    && 1 <= Span(m[c])
    && c + Span(m[c]) <= |m|
    && (c + Span(m[c]) < |m| ==> m[c + Span(m[c])] != Body)
    && forall d | c < d < c + Span(m[c]) :: m[d] == Body
  }

  ghost predicate WellFormed(m: Chunks) {
    && (|m| > 0 ==> m[0] != Body)
    && forall c: nat {:trigger BlockOk(m, c)} | c < |m| && m[c] != Body :: BlockOk(m, c)
  }

  function Frees(n: nat): (s: Chunks)
    ensures |s| == n && forall i | 0 <= i < n :: s[i] == Free
  {
    seq(n, _ => Free)
  }

  function Bodies(n: nat): (s: Chunks)
    ensures |s| == n && forall i | 0 <= i < n :: s[i] == Body
  {
    seq(n, _ => Body)
  }

  function Grown(m: Chunks): Chunks {
    m + Frees(PAGE_CHUNKS)
  }

  /** `k` consecutive free chunks start at `s`. */
  ghost predicate RunAt(m: Chunks, s: nat, k: nat) {
    s + k <= |m| && forall d | s <= d < s + k :: m[d] == Free
  }

  /** The lowest position at or after `s` where `k` free chunks start; `|m|` when there is none. */
  ghost function FirstRun(m: Chunks, k: nat, s: nat): (r: nat)
    requires s <= |m|
    ensures s <= r <= |m|
    ensures r < |m| ==> RunAt(m, r, k)
    ensures forall t: nat | s <= t < r :: !RunAt(m, t, k)
    decreases |m| - s
  {
    if s == |m| || RunAt(m, s, k) then s else FirstRun(m, k, s + 1)
  }

  /** Fuses the `k` chunks from `c` into one allocated block. */
  function Place(m: Chunks, c: nat, k: nat): Chunks
    requires 1 <= k && c + k <= |m|
  {
    m[..c] + [Head(k)] + Bodies(k - 1) + m[c + k..]
  }

  /** Explodes the allocated block at `c` back into free unit chunks. */
  function Release(m: Chunks, c: nat): Chunks
    requires c < |m| && m[c].Head? && c + m[c].span <= |m|
  {
    m[..c] + Frees(m[c].span) + m[c + m[c].span..]
  }

  /** Number of free chunks at the end of the map. */
  ghost function Trailing(m: Chunks): (n: nat)
    ensures n <= |m| && RunAt(m, |m| - n, n)
    ensures n < |m| ==> m[|m| - 1 - n] != Free
  {
    if m == [] || m[|m| - 1] != Free then 0 else 1 + Trailing(m[..|m| - 1])
  }

  lemma {:induction false} TrailingGrown(m: Chunks, j: nat)
    ensures Trailing(m + Frees(j)) == Trailing(m) + j
  {
    if j == 0 {
      assert m + Frees(0) == m;
    } else {
      var g := m + Frees(j);
      assert g[..|g| - 1] == m + Frees(j - 1);
      TrailingGrown(m, j - 1);
    }
  }

  /** The first run never starts after the point where the trailing free chunks allow one. */
  lemma FirstRunBeforeTrailing(m: Chunks, k: nat)
    requires 1 <= k <= Trailing(m)
    ensures FirstRun(m, k, 0) <= |m| - Trailing(m) < |m|
  {
    assert RunAt(m, |m| - Trailing(m), k);
  }

  ghost predicate HasRun(m: Chunks, k: nat) {
    FirstRun(m, k, 0) < |m|
  }

  /** Growth by whole pages until a run of `k` chunks exists: the retry loop of `_malloc`. */
  ghost function Settle(m: Chunks, k: nat): (r: Chunks)
    requires 1 <= k
    ensures HasRun(r, k)
    decreases if Trailing(m) < k then k - Trailing(m) else 0
  {
    if HasRun(m, k) then m
    else
      TrailingGrown(m, PAGE_CHUNKS);
      assert Trailing(m) < k by {
        if Trailing(m) >= k { FirstRunBeforeTrailing(m, k); }
      }
      Settle(Grown(m), k)
  }

  function FreeCount(m: Chunks): nat {
    if m == [] then 0 else (if m[0] == Free then 1 else 0) + FreeCount(m[1..])
  }

  /** Sum of the spans of the allocated blocks. */
  function UsedCount(m: Chunks): nat {
    if m == [] then 0 else (if m[0].Head? then m[0].span else 0) + UsedCount(m[1..])
  }

  /** Fewer than 20 percent of the chunks are free, or there are none at all. */
  predicate GrowthDue(m: Chunks) {
    |m| == 0 || FreeCount(m) * 5 < |m|
  }

  function Base(m: Chunks): Chunks {
    if GrowthDue(m) then Grown(m) else m
  }

  /** The chunk where a request for `k` chunks lands. */
  ghost function Landing(m: Chunks, k: nat): nat
    requires 1 <= k
  {
    FirstRun(Settle(Base(m), k), k, 0)
  }

  /** Places `k` chunks at `c`; an exact fit at the end of the map appends a page. */
  function Finish(s: Chunks, c: nat, k: nat): Chunks
    requires 1 <= k && c + k <= |s|
  {
    if c + k == |s| then Grown(Place(s, c, k)) else Place(s, c, k)
  }

  /** The chunk map after an accepted request for `k` chunks, growth included. */
  ghost function Allocate(m: Chunks, k: nat): Chunks
    requires 1 <= k
  {
    Finish(Settle(Base(m), k), Landing(m, k), k)
  }

  /** A heap that has grown ends in a free chunk: the fact the growth bound rests on. */
  predicate LastFree(m: Chunks) {
    |m| > 0 ==> m[|m| - 1] == Free
  }

  ghost predicate Inv(m: Chunks) {
    WellFormed(m) && LastFree(m) && |m| % PAGE_CHUNKS == 0
  }

  // ----- counting -------------------------------------------------------------

  lemma {:induction false} CountConcat(a: Chunks, b: Chunks)
    ensures FreeCount(a + b) == FreeCount(a) + FreeCount(b)
    ensures UsedCount(a + b) == UsedCount(a) + UsedCount(b)
  {
    if a == [] {
      assert a + b == b;
    } else {
      assert (a + b)[1..] == a[1..] + b;
      CountConcat(a[1..], b);
    }
  }

  lemma {:induction false} CountUniform(n: nat)
    ensures FreeCount(Frees(n)) == n && UsedCount(Frees(n)) == 0
    ensures FreeCount(Bodies(n)) == 0 && UsedCount(Bodies(n)) == 0
  {
    if n > 0 {
      assert Frees(n)[1..] == Frees(n - 1) && Bodies(n)[1..] == Bodies(n - 1);
      CountUniform(n - 1);
    }
  }

  lemma CountGrown(m: Chunks)
    ensures FreeCount(Grown(m)) == FreeCount(m) + PAGE_CHUNKS && UsedCount(Grown(m)) == UsedCount(m)
  {
    CountConcat(m, Frees(PAGE_CHUNKS));
    CountUniform(PAGE_CHUNKS);
  }

  lemma CountPlace(m: Chunks, c: nat, k: nat)
    requires 1 <= k && RunAt(m, c, k)
    ensures FreeCount(Place(m, c, k)) == FreeCount(m) - k
    ensures UsedCount(Place(m, c, k)) == UsedCount(m) + k
  {
    assert m == m[..c] + Frees(k) + m[c + k..];
    CountConcat(m[..c] + Frees(k), m[c + k..]);
    CountConcat(m[..c], Frees(k));
    CountConcat(m[..c] + [Head(k)] + Bodies(k - 1), m[c + k..]);
    CountConcat(m[..c] + [Head(k)], Bodies(k - 1));
    CountConcat(m[..c], [Head(k)]);
    assert [Head(k)][1..] == [];
    CountUniform(k);
    CountUniform(k - 1);
  }

  /** Releasing undoes placing, cell by cell. */
  lemma ReleasePlace(m: Chunks, c: nat, k: nat)
    requires 1 <= k && RunAt(m, c, k)
    ensures Release(Place(m, c, k), c) == m
  {
    assert Place(m, c, k)[c + k..] == m[c + k..];
    assert m == m[..c] + Frees(k) + m[c + k..];
  }

  /** And placing undoes releasing. */
  lemma PlaceRelease(m: Chunks, c: nat)
    requires WellFormed(m) && c < |m| && m[c].Head?
    ensures BlockOk(m, c) && RunAt(Release(m, c), c, m[c].span)
    ensures Place(Release(m, c), c, m[c].span) == m
  {
    assert BlockOk(m, c);
    PlaceReleased(m, c);
    hide BlockOk, WellFormed;
  }

  lemma PlaceReleased(m: Chunks, c: nat)
    requires c < |m| && m[c].Head? && BlockOk(m, c)
    ensures RunAt(Release(m, c), c, m[c].span) && Place(Release(m, c), c, m[c].span) == m
  {
    var k := m[c].span;
    assert Release(m, c)[c + k..] == m[c + k..];
    assert m == m[..c] + [Head(k)] + Bodies(k - 1) + m[c + k..];
  }

  lemma CountRelease(m: Chunks, c: nat)
    requires WellFormed(m) && c < |m| && m[c].Head?
    ensures BlockOk(m, c)
    ensures FreeCount(Release(m, c)) == FreeCount(m) + m[c].span
    ensures UsedCount(Release(m, c)) == UsedCount(m) - m[c].span
  {
    PlaceRelease(m, c);
    CountPlace(Release(m, c), c, m[c].span);
  }

  /** From any block boundary on, free chunks and allocated spans account for every chunk. */
  lemma {:induction false} CountSuffix(m: Chunks, c: nat)
    requires WellFormed(m) && c <= |m| && (c < |m| ==> m[c] != Body)
    ensures FreeCount(m[c..]) + UsedCount(m[c..]) == |m| - c
    decreases |m| - c
  {
    if c < |m| {
      assert BlockOk(m, c);
      var e := c + Span(m[c]);
      CountSuffix(m, e);
      assert m[c..] == [m[c]] + Bodies(e - c - 1) + m[e..];
      CountConcat([m[c]] + Bodies(e - c - 1), m[e..]);
      CountConcat([m[c]], Bodies(e - c - 1));
      assert [m[c]][1..] == [];
      CountUniform(e - c - 1);
    }
  }

  /** Conservation: free chunks plus the spans of live blocks is the whole heap. */
  lemma Conservation(m: Chunks)
    requires WellFormed(m)
    ensures FreeCount(m) + UsedCount(m) == |m|
  {
    CountSuffix(m, 0);
    assert m[0..] == m;
  }

  // ----- tiling ---------------------------------------------------------------

  /** Chunk `d` lies in the block that starts at `c`. */
  ghost predicate Covers(m: Chunks, c: nat, d: nat) {
    c < |m| && m[c] != Body && c <= d < c + Span(m[c])
  }

  /** The blocks tile the heap: every chunk lies in exactly one of them. */
  lemma {:induction false} Tiling(m: Chunks, d: nat) returns (c: nat)
    requires WellFormed(m) && d < |m|
    ensures Covers(m, c, d)
    ensures forall e: nat | Covers(m, e, d) :: e == c
  {
    c := d;
    while m[c] == Body
      invariant c <= d && forall e | c < e <= d :: m[e] == Body
      decreases c
    {
      c := c - 1;
    }
    assert BlockOk(m, c);
    forall e: nat | Covers(m, e, d)
      ensures e == c
    {
      assert BlockOk(m, e);
    }
  }

  // ----- well-formedness of each step -------------------------------------------

  lemma GrownBlock(m: Chunks, c: nat)
    requires c < |m| + PAGE_CHUNKS && (c < |m| ==> BlockOk(m, c))
    ensures BlockOk(Grown(m), c)
  {
  }

  lemma GrownInv(m: Chunks)
    requires WellFormed(m) && |m| % PAGE_CHUNKS == 0
    ensures Inv(Grown(m))
  {
    hide BlockOk;
    var g := Grown(m);
    forall c: nat | c < |g| && g[c] != Body
      ensures BlockOk(g, c)
    {
      assert c < |m| ==> BlockOk(m, c);
      hide BlockOk;
      GrownBlock(m, c);
    }
  }

  lemma PlaceWellFormed(m: Chunks, c: nat, k: nat)
    requires WellFormed(m) && 1 <= k && RunAt(m, c, k)
    ensures WellFormed(Place(m, c, k))
  {
    var p := Place(m, c, k);
    assert c + k < |m| ==> m[c + k] != Body by {
      assert m[c + k - 1] == Free && BlockOk(m, c + k - 1);
    }
    forall d: nat | d < |p| && p[d] != Body
      ensures BlockOk(p, d)
    {
      if d != c {
        assert p[d] == m[d] && BlockOk(m, d);
        assert d < c ==> m[c] == Free && d + Span(m[d]) <= c;
      }
    }
  }

  lemma ReleaseInv(m: Chunks, c: nat)
    requires Inv(m) && c < |m| && m[c].Head?
    ensures BlockOk(m, c) && Inv(Release(m, c))
  {
    assert BlockOk(m, c);
    var k := m[c].span;
    var r := Release(m, c);
    forall d: nat | d < |r| && r[d] != Body
      ensures BlockOk(r, d)
    {
      if d < c || d >= c + k {
        assert r[d] == m[d] && BlockOk(m, d);
      }
    }
  }

  /** What growing until a run fits may do: append whole free pages. */
  lemma {:induction false} SettleAppends(m: Chunks, k: nat)
    requires 1 <= k && WellFormed(m) && |m| % PAGE_CHUNKS == 0
    ensures WellFormed(Settle(m, k)) && |Settle(m, k)| % PAGE_CHUNKS == 0
    ensures |m| <= |Settle(m, k)|
    ensures Settle(m, k) == m + Frees(|Settle(m, k)| - |m|)
    ensures UsedCount(Settle(m, k)) == UsedCount(m)
    ensures Settle(m, k) != m ==> |Settle(m, k)| - PAGE_CHUNKS - |m| + Trailing(m) < k
    decreases if Trailing(m) < k then k - Trailing(m) else 0
  {
    hide WellFormed, RunAt, UsedCount, FreeCount, FirstRun, Trailing;
    if HasRun(m, k) {
      assert m == m + Frees(0);
    } else {
      if Trailing(m) >= k { FirstRunBeforeTrailing(m, k); }
      TrailingGrown(m, PAGE_CHUNKS);
      GrownInv(m);
      CountGrown(m);
      SettleAppends(Grown(m), k);
      var s := Settle(m, k);
      MoreFrees(m, |s| - |Grown(m)|);
    }
  }

  lemma MoreFrees(m: Chunks, n: nat)
    ensures Grown(m) + Frees(n) == m + Frees(PAGE_CHUNKS + n)
  {
  }

  // ----- allocation -------------------------------------------------------------

  /** The map that is searched is the old one with free pages appended. */
  lemma SearchedMap(m: Chunks, k: nat)
    requires 1 <= k && Inv(m)
    ensures var s := Settle(Base(m), k);
      && Inv(s) && 0 < |s| && |m| <= |s|
      && s == m + Frees(|s| - |m|)
      && UsedCount(s) == UsedCount(m)
  {
    hide Settle, WellFormed, UsedCount, FreeCount, FirstRun, RunAt, Trailing;
    if GrowthDue(m) { GrownInv(m); CountGrown(m); }
    SettleAppends(Base(m), k);
    var s := Settle(Base(m), k);
    assert s == m + Frees(|s| - |m|);
  }

  lemma FinishInv(s: Chunks, c: nat, k: nat)
    requires Inv(s) && 1 <= k && RunAt(s, c, k)
    ensures Inv(Finish(s, c, k)) && c + k < |Finish(s, c, k)| && Finish(s, c, k)[c] == Head(k)
    ensures FreeCount(Finish(s, c, k)) == FreeCount(s) - k + |Finish(s, c, k)| - |s|
    ensures UsedCount(Finish(s, c, k)) == UsedCount(s) + k
  {
    PlaceWellFormed(s, c, k);
    CountPlace(s, c, k);
    if c + k == |s| {
      GrownInv(Place(s, c, k));
      CountGrown(Place(s, c, k));
    }
  }

  /** Every accepted request keeps the heap invariant and gives the block exactly its span. */
  lemma AllocateInv(m: Chunks, k: nat)
    requires 1 <= k && Inv(m)
    ensures Inv(Allocate(m, k)) && 0 < |Allocate(m, k)|
    ensures Landing(m, k) + k < |Allocate(m, k)| && Allocate(m, k)[Landing(m, k)] == Head(k)
    ensures UsedCount(Allocate(m, k)) == UsedCount(m) + k
  {
    SearchedMap(m, k);
    FinishInv(Settle(Base(m), k), Landing(m, k), k);
  }

  /** Appending free chunks neither hides a run nor creates a lower one than those already there. */
  lemma RunsOfExtension(m: Chunks, j: nat, k: nat)
    requires 1 <= k
    ensures forall t: nat | t < FirstRun(m + Frees(j), k, 0) :: !RunAt(m, t, k)
    ensures HasRun(m, k) ==> FirstRun(m + Frees(j), k, 0) == FirstRun(m, k, 0)
  {
    var s := m + Frees(j);
    forall t: nat | t + k <= |m|
      ensures RunAt(m, t, k) <==> RunAt(s, t, k)
    {
      assert forall d | t <= d < t + k :: s[d] == m[d];
    }
    var r, q := FirstRun(m, k, 0), FirstRun(s, k, 0);
    if r < |m| {
      assert RunAt(s, r, k);
      assert q <= r;
      assert RunAt(m, q, k);
    }
  }

  /** First fit: no lower run of the request's size exists. */
  lemma LowestFit(m: Chunks, k: nat)
    requires 1 <= k && Inv(m)
    ensures forall t: nat | t < Landing(m, k) :: !RunAt(m, t, k)
    ensures HasRun(m, k) ==> Landing(m, k) == FirstRun(m, k, 0)
  {
    SearchedMap(m, k);
    RunsOfExtension(m, |Settle(Base(m), k)| - |m|, k);
  }

  /** Without a run in the old map, the block lands on its trailing free chunks. */
  lemma LandsOnTrailing(m: Chunks, j: nat, k: nat)
    requires 1 <= k && !HasRun(m, k) && HasRun(m + Frees(j), k)
    ensures var e := |m| - Trailing(m); FirstRun(m + Frees(j), k, 0) == e && e + k <= |m| + j
  {
    var s, e := m + Frees(j), |m| - Trailing(m);
    var q := FirstRun(s, k, 0);
    assert RunAt(s, q, k);
    if q < e {
      assert forall d: nat | d < |m| :: s[d] == m[d];
      assert q + k <= |m| ==> RunAt(m, q, k);
    }
    assert RunAt(s, e, k);
  }

  /** Where the search ends that had to grow: on the fewest pages that hold the run. */
  lemma SettledLength(m: Chunks, k: nat)
    requires 1 <= k && Inv(m) && !HasRun(m, k)
    ensures var s, e := Settle(Base(m), k), |m| - Trailing(m) + k;
      |s| % PAGE_CHUNKS == 0 && |s| - PAGE_CHUNKS < e <= |s| && FirstRun(s, k, 0) == e - k
  {
    hide Settle, FirstRun, WellFormed, RunAt, Trailing, UsedCount, FreeCount;
    var b := Base(m);
    var s, g := Settle(b, k), |b| - |m|;
    SearchedMap(m, k);
    LandsOnTrailing(m, |s| - |m|, k);
    if GrowthDue(m) { GrownInv(m); }
    assert b == m + Frees(g);
    TrailingGrown(m, g);
    SettleAppends(b, k);
    if k <= Trailing(m) { FirstRunBeforeTrailing(m, k); }
  }

  /** The first page boundary behind `e`. */
  lemma NextPage(n: nat, e: nat)
    requires n % PAGE_CHUNKS == 0 && n - PAGE_CHUNKS < e <= n
    ensures (e / PAGE_CHUNKS + 1) * PAGE_CHUNKS == if e == n then n + PAGE_CHUNKS else n
  {
  }

  lemma SettledAtOnce(m: Chunks, k: nat)
    requires 1 <= k && HasRun(m, k)
    ensures Settle(Base(m), k) == Base(m) && FirstRun(Base(m), k, 0) == FirstRun(m, k, 0)
    ensures FirstRun(m, k, 0) + k <= |m|
  {
    var g := |Base(m)| - |m|;
    assert Base(m) == m + Frees(g);
    RunsOfExtension(m, g, k);
    assert RunAt(m, FirstRun(m, k, 0), k);
  }

  /** How far an accepted request grows the heap. When a run is there already, the heap keeps its length if and only if
      at least a fifth of its chunks is free and a chunk is left behind the run, and grows by one page otherwise. When
      there is none, it grows to the fewest pages that hold the run, from the trailing free chunks on, and one chunk
      more. */
  lemma AllocateLength(m: Chunks, k: nat)
    requires 1 <= k && Inv(m)
    ensures HasRun(m, k) ==>
      (|Allocate(m, k)| == |m| <==> |m| <= 5 * FreeCount(m) && FirstRun(m, k, 0) + k < |m|)
    ensures HasRun(m, k) && |Allocate(m, k)| != |m| ==> |Allocate(m, k)| == |m| + PAGE_CHUNKS
    ensures !HasRun(m, k) ==>
      && Landing(m, k) == |m| - Trailing(m)
      && |Allocate(m, k)| == ((|m| - Trailing(m) + k) / PAGE_CHUNKS + 1) * PAGE_CHUNKS
  {
    hide Settle, FirstRun, Inv, RunAt, Trailing, UsedCount, FreeCount, Finish;
    var s := Settle(Base(m), k);
    FinishLength(s, k);
    if HasRun(m, k) {
      SettledAtOnce(m, k);
    } else {
      SettledLength(m, k);
      NextPage(|s|, |m| - Trailing(m) + k);
    }
  }

  lemma FinishFrame(m: Chunks, j: nat, c: nat, k: nat)
    requires 1 <= k && RunAt(m + Frees(j), c, k)
    ensures var a := Finish(m + Frees(j), c, k);
      && |m| + j <= |a| && a[c] == Head(k)
      && Release(a, c) == m + Frees(|a| - |m|)
      && forall d: nat | d < |m| && !(c <= d < c + k) :: a[d] == m[d]
  {
    var s := m + Frees(j);
    var a := Finish(s, c, k);
    ReleasePlace(s, c, k);
    assert Release(a, c) == s + Frees(|a| - |s|);
    assert s + Frees(|a| - |s|) == m + Frees(|a| - |m|);
  }

  /** Round trip: releasing the block just allocated restores the map, apart from appended free pages;
      and every chunk outside the new block keeps its role. */
  lemma AllocateRelease(m: Chunks, k: nat)
    requires 1 <= k && Inv(m)
    ensures var a := Allocate(m, k); var c := Landing(m, k);
      && c + k <= |a| && a[c] == Head(k) && |m| <= |a|
      && Release(a, c) == m + Frees(|a| - |m|)
      && forall d: nat | d < |m| && !(c <= d < c + k) :: a[d] == m[d]
  {
    SearchedMap(m, k);
    FinishFrame(m, |Settle(Base(m), k)| - |m|, Landing(m, k), k);
  }

  /** Growth of a search that starts from a map whose last `t` chunks are free. */
  lemma SettleBound(b: Chunks, k: nat, t: nat)
    requires 1 <= k && WellFormed(b) && |b| % PAGE_CHUNKS == 0 && |b| <= MAX_CHUNKS
    requires t <= Trailing(b) && |b| + k <= MAX_CHUNKS + t
    ensures |Settle(b, k)| <= MAX_CHUNKS
    ensures |Settle(b, k)| == MAX_CHUNKS ==> MAX_CHUNKS - |b| + t <= Trailing(Settle(b, k))
  {
    hide Settle, Trailing, WellFormed, UsedCount, FreeCount, FirstRun, RunAt;
    SettleAppends(b, k);
    TrailingGrown(b, |Settle(b, k)| - |b|);
  }

  /** A search over a map whose last `t` chunks are free lands below the end when `t` exceeds what is left. */
  lemma AllocateBound(b: Chunks, k: nat, t: nat)
    requires 1 <= k && WellFormed(b) && |b| % PAGE_CHUNKS == 0 && |b| <= MAX_CHUNKS
    requires t <= Trailing(b) && |b| + k < MAX_CHUNKS + t
    ensures var s := Settle(b, k); |Finish(s, FirstRun(s, k, 0), k)| <= MAX_CHUNKS
  {
    hide Settle, Trailing, WellFormed, FirstRun, RunAt, UsedCount, Finish, HasRun;
    SettleBound(b, k, t);
    SettleAppends(b, k);
    FinishLength(Settle(b, k), k);
    if |Settle(b, k)| == MAX_CHUNKS {
      FirstRunBeforeTrailing(Settle(b, k), k);
    }
  }

  lemma FinishLength(s: Chunks, k: nat)
    requires 1 <= k && HasRun(s, k)
    ensures var c := FirstRun(s, k, 0);
      c + k <= |s| && |Finish(s, c, k)| == if c + k == |s| then |s| + PAGE_CHUNKS else |s|
  {
    assert RunAt(s, FirstRun(s, k, 0), k);
  }

  /** The very first request, for every chunk of the heap: it fills the last page exactly. */
  lemma FullFirstRequest(b: Chunks, k: nat)
    requires b == Frees(PAGE_CHUNKS) && k == MAX_CHUNKS
    ensures |Settle(b, k)| == MAX_CHUNKS && FirstRun(Settle(b, k), k, 0) == 0
  {
    assert b == [] + Frees(PAGE_CHUNKS);
    TrailingGrown([], PAGE_CHUNKS);
    SettleBound(b, k, PAGE_CHUNKS);
    assert RunAt(Settle(b, k), FirstRun(Settle(b, k), k, 0), k);
  }

  /** The heap limit: an accepted request (the guard gives `|m| + k <= MAX_CHUNKS`) grows the heap
      past its end in exactly one case, a first request for every chunk. */
  lemma GrowthBound(m: Chunks, k: nat)
    requires 1 <= k && Inv(m) && |m| + k <= MAX_CHUNKS
    ensures |Allocate(m, k)| <= MAX_CHUNKS + PAGE_CHUNKS
    ensures |Allocate(m, k)| <= MAX_CHUNKS <==> !(|m| == 0 && k == MAX_CHUNKS)
  {
    var b := Base(m);
    var g := |b| - |m|;
    assert b == m + Frees(g);
    TrailingGrown(m, g);
    if |m| == 0 {
      assert b == Frees(PAGE_CHUNKS);
      if k == MAX_CHUNKS {
        FullFirstRequest(b, k);
      } else {
        AllocateBound(b, k, g);
      }
    } else {
      GrownInv(m);
      AllocateBound(b, k, g + 1);
    }
  }
}
