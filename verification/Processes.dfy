/** Who owns which physical frame across process spawn and exit (`process.c`, `page.c`, the stack mapping of
    `task.c`). Page directory entries map 4 MiB pages (32-bit paging, section 4.3 of the Intel SDM volume 3A). */
module Processes {
  import opened Frames
  import opened Words
  import opened UserSpace

  const USER_ENTRIES: nat := 768
  const ENTRIES: nat := 1024
  const USER_FLAGS: nat := 0x87   // PAGE_PS | PAGE_PRESENT | PAGE_WRITABLE | PAGE_USER
  const KERNEL_FLAGS: nat := 0x83 // PAGE_PS | PAGE_PRESENT | PAGE_WRITABLE

  type Directory = seq<nat>

  /** A live user process: the frame of its page directory, and the directory. */
  datatype Process = Process(dirFrame: nat, dir: Directory)

  predicate Present(e: nat) {
    e % 2 == 1
  }

  /** A directory entry: the frame address in bits 31..22, flags in the low twelve bits. */
  function MapEntry(phys: nat, flags: nat): nat {
    phys / PAGE_SIZE * PAGE_SIZE + flags % 0x1000
  }

  function FrameOf(e: nat): nat {
    e / PAGE_SIZE
  }

  /** `page_get_phys_addr` */
  function PhysAddr(dir: Directory, virt: nat): nat
    requires |dir| == ENTRIES && virt / PAGE_SIZE < ENTRIES
  {
    var e := dir[virt / PAGE_SIZE];
    if !Present(e) then 0 else e / PAGE_SIZE * PAGE_SIZE + virt % PAGE_SIZE
  }

  /** The frame that an entry maps, if it maps one. */
  ghost function Old(e: nat): set<nat> {
    if Present(e) then {FrameOf(e)} else {}
  }

  /** A page as user processes have them: present, writable, open to user mode and of 4 MiB (bits 0, 1, 2 and 7 of the
      low twelve), with no bit set between the flags and the frame address. */
  predicate UserPage(e: nat) {
    Present(e) && e % 0x1000 == 0x87 && e % PAGE_SIZE < 0x1000
  }

  /** An entry made for frame `f` is present, names that frame and has exactly the given flags. */
  lemma EntryMeaning(f: nat, flags: nat)
    requires flags % 2 == 1 && flags < 0x1000
    ensures var e := MapEntry(f * PAGE_SIZE, flags);
      Present(e) && FrameOf(e) == f && e % 0x1000 == e % PAGE_SIZE == flags && e == f * PAGE_SIZE + flags
    ensures UserPage(MapEntry(f * PAGE_SIZE, USER_FLAGS))
  {
    EntryParts(f, flags);
    EntryParts(f, USER_FLAGS);
  }

  lemma EntryParts(f: nat, flags: nat)
    requires flags % 2 == 1 && flags < 0x1000
    ensures var e := MapEntry(f * PAGE_SIZE, flags);
      Present(e) && FrameOf(e) == f && e % 0x1000 == e % PAGE_SIZE == flags && e == f * PAGE_SIZE + flags
  {
    Split(0, f, PAGE_SIZE);
    Split(flags, f, PAGE_SIZE);
    Split(flags, 0x400 * f, 0x1000);
    Split(1, flags / 2 + PAGE_SIZE / 2 * f, 2);
    assert MapEntry(f * PAGE_SIZE, flags) == flags + PAGE_SIZE * f;
  }

  /** Entry `c` of a process maps what entry `e` of the kernel maps, with the kernel's flags. */
  predicate Shares(c: nat, e: nat) {
    if Present(e) then Present(c) && FrameOf(c) == FrameOf(e) && c % 0x1000 == KERNEL_FLAGS else c == 0
  }

  /** The upper quarter of a process's directory maps what the kernel's maps. */
  ghost predicate SeesKernel(dir: Directory, kernelDir: Directory) {
    |dir| == |kernelDir| == ENTRIES && forall i: nat | USER_ENTRIES <= i < ENTRIES :: Shares(dir[i], kernelDir[i])
  }

  /** The kernel's directory with its window on the page directory in frame `f`. */
  function Windowed(kernelDir: Directory, f: nat): Directory
    requires |kernelDir| == ENTRIES
  {
    kernelDir[(USER_ENTRIES + f) % ENTRIES := f * PAGE_SIZE + 0x87]
  }

  /** A directory entry copied with other flags still names the same frame. */
  lemma CopiedEntry(e: nat)
    ensures Shares(if Present(e) then e / 0x1000 * 0x1000 + KERNEL_FLAGS else 0, e)
  {
    var q := e / 0x1000;
    Split(KERNEL_FLAGS, q, 0x1000);
    Split(1, 0x800 * q + KERNEL_FLAGS / 2, 2);
    Split(q % 0x400 * 0x1000 + KERNEL_FLAGS, q / 0x400, PAGE_SIZE);
    Split(q % 0x400 * 0x1000 + e % 0x1000, q / 0x400, PAGE_SIZE);
  }

  /** The frames that can still be taken. */
  ghost function Free(used: set<nat>): set<nat> {
    Range(0, MAX_FRAMES) - used
  }

  lemma FreeTaken(used: set<nat>, f: nat)
    requires f < MAX_FRAMES && f !in used
    ensures |Free(used + {f})| == |Free(used)| - 1
  {
    assert Free(used + {f}) == Free(used) - {f};
  }

  lemma NoneFree(used: set<nat>)
    ensures |Free(used)| == 0 <==> Range(0, MAX_FRAMES) <= used
  {
    if Range(0, MAX_FRAMES) <= used {
      assert Free(used) == {};
    } else {
      var f :| f in Range(0, MAX_FRAMES) && f !in used;
      assert f in Free(used);
    }
  }

  // ----- ownership --------------------------------------------------------------------

  predicate MapsTo(dir: Directory, i: nat, f: nat) {
    i < |dir| && i < USER_ENTRIES && Present(dir[i]) && FrameOf(dir[i]) == f
  }

  ghost function FramesUpTo(dir: Directory, n: nat): (s: set<nat>)
    ensures forall f: nat :: f in s <==> exists i: nat :: i < n && MapsTo(dir, i, f)
  {
    if n == 0 then {}
    else
      var s := FramesUpTo(dir, n - 1);
      if n - 1 < |dir| && n - 1 < USER_ENTRIES && Present(dir[n - 1])
      then assert MapsTo(dir, n - 1, FrameOf(dir[n - 1])); s + {FrameOf(dir[n - 1])} else s
  }

  /** The frames that the user half of a directory maps. */
  ghost function UserFrames(dir: Directory): (s: set<nat>)
    ensures forall f: nat :: f in s <==> exists i: nat :: MapsTo(dir, i, f)
  {
    FramesUpTo(dir, USER_ENTRIES)
  }

  /** No two user entries share a frame. */
  ghost predicate Injective(dir: Directory) {
    forall i: nat, j: nat, f: nat | MapsTo(dir, i, f) && MapsTo(dir, j, f) :: i == j
  }

  ghost function FramesOf(p: Process): set<nat> {
    {p.dirFrame} + UserFrames(p.dir)
  }

  /** A process owns each of its frames in exactly one way, all of them marked used and none of them `taken`. */
  ghost predicate Owns(p: Process, used: set<nat>, taken: set<nat>) {
    && |p.dir| == ENTRIES && Injective(p.dir) && p.dirFrame !in UserFrames(p.dir)
    && FramesOf(p) <= used && FramesOf(p) !! taken
  }

  /** Every frame has at most one owner (kernel, kernel heap, one page directory, one user entry), and every owned
      frame is marked. */
  ghost predicate Ownership(used: set<nat>, kernel: set<nat>, heap: set<nat>, procs: map<nat, Process>) {
    && 0 in kernel && kernel <= used && heap <= used && kernel !! heap && (forall f | f in used :: f < MAX_FRAMES)
    && (forall p {:trigger Owns(procs[p], used, kernel + heap)} | p in procs :: Owns(procs[p], used, kernel + heap))
    && (forall p, q | p in procs && q in procs && p != q :: FramesOf(procs[p]) !! FramesOf(procs[q]))
  }

  /** Mapping a frame the directory does not use yet, in a free user entry. */
  lemma Mapped(dir: Directory, i: nat, f: nat)
    requires |dir| == ENTRIES && i < USER_ENTRIES && !Present(dir[i]) && f !in UserFrames(dir) && Injective(dir)
    ensures var d := dir[i := MapEntry(f * PAGE_SIZE, USER_FLAGS)];
      UserFrames(d) == UserFrames(dir) + {f} && Injective(d)
  {
    EntryMeaning(f, USER_FLAGS);
    var d := dir[i := MapEntry(f * PAGE_SIZE, USER_FLAGS)];
    forall j: nat, g: nat
      ensures MapsTo(d, j, g) <==> MapsTo(dir, j, g) || (j == i && g == f)
    {
    }
    assert MapsTo(d, i, f);
  }

  /** Unmapping a present user entry. */
  lemma Unmapped(dir: Directory, i: nat)
    requires |dir| == ENTRIES && i < USER_ENTRIES && Injective(dir)
    ensures var d := dir[i := 0];
      && Injective(d)
      && UserFrames(d) == if Present(dir[i]) then UserFrames(dir) - {FrameOf(dir[i])} else UserFrames(dir)
  {
    var d := dir[i := 0];
    forall j: nat, g: nat
      ensures MapsTo(d, j, g) <==> MapsTo(dir, j, g) && j != i
    {
    }
    if Present(dir[i]) { assert MapsTo(dir, i, FrameOf(dir[i])); }
  }

  lemma NothingMapped(dir: Directory)
    requires forall i: nat | i < |dir| && i < USER_ENTRIES :: !Present(dir[i])
    ensures UserFrames(dir) == {} && Injective(dir)
  {
    forall i: nat, f: nat
      ensures !MapsTo(dir, i, f)
    {
    }
  }

  class Machine {
    const pfa: Allocator
    /** The kernel's own page directory, whose upper quarter every process shares. */
    var kernelDir: Directory
    var procs: map<nat, Process>
    ghost const kernel: set<nat>
    ghost var heap: set<nat>

    ghost predicate Valid()
      reads this, pfa, pfa.bitmap
    {
      pfa.Valid() && |kernelDir| == ENTRIES && Ownership(pfa.Used(), kernel, heap, procs)
    }

    /** The machine after boot: whatever the memory map says, kernel and framebuffer frames are reserved. */
    constructor (regions: seq<Region>, kernelDir: Directory)
      requires |kernelDir| == ENTRIES
      ensures Valid() && procs == map[] && heap == {} && kernel == Reserved()
      ensures forall f: nat | f < MAX_FRAMES :: f !in pfa.Used() <==> !HoldsKernel(f) && SaidAvailable(regions, f)
    {
      var a := new Allocator();
      a.InitMmap(regions);
      pfa, this.kernelDir, procs, heap, kernel := a, kernelDir, map[], {}, Reserved();
    }

    /** `pfa_alloc` on a machine whose frame 0 is reserved: a 0 always means that no frame is left. */
    method TakeFrame() returns (phys: nat, ghost f: nat)
      requires pfa.Valid() && 0 in pfa.Used()
      modifies pfa.bitmap
      ensures pfa.Valid() && phys == f * PAGE_SIZE
      ensures phys == 0 <==> Range(0, MAX_FRAMES) <= old(pfa.Used())
      ensures phys == 0 ==> pfa.Used() == old(pfa.Used())
      ensures phys != 0 ==> f < MAX_FRAMES && f !in old(pfa.Used()) && pfa.Used() == old(pfa.Used()) + {f}
    {
      phys := pfa.Alloc();
      f := phys / PAGE_SIZE;
    }

    /** `_heap_grow`'s use of the frame allocator; `false` stands for the panic. */
    method GrowPage() returns (ok: bool, ghost f: nat)
      requires Valid()
      modifies this`heap, pfa.bitmap
      ensures Valid() && (ok <==> |Free(old(pfa.Used()))| != 0)
      ensures !ok ==> heap == old(heap) && pfa.Used() == old(pfa.Used())
      ensures ok ==>
        && f !in old(pfa.Used()) && f !in old(heap) && heap == old(heap) + {f}
        && pfa.Used() == old(pfa.Used()) + {f}
      ensures ok ==> |Free(pfa.Used())| == |Free(old(pfa.Used()))| - 1
    {
      hide Ownership, Free;
      ghost var used, h := pfa.Used(), heap;
      Bounds(used, kernel, h, procs);
      NoneFree(used);
      var phys;
      phys, f := TakeFrame();
      if phys == 0 { return false, f; }
      FreeTaken(used, f);
      HeapTakes(used, kernel, h, procs, f);
      heap := heap + {f};
      ok := true;
    }

    /** `n` growths of the heap. */
    method GrowHeap(n: nat) returns (ok: bool)
      requires Valid()
      modifies this`heap, pfa.bitmap
      ensures Valid() && old(heap) <= heap && heap - old(heap) !! old(pfa.Used())
      ensures pfa.Used() == old(pfa.Used()) + heap
      ensures ok ==> |heap| == |old(heap)| + n && |Free(pfa.Used())| == |Free(old(pfa.Used()))| - n
      ensures ok <==> n <= |Free(old(pfa.Used()))|
    {
      hide Ownership, Free, Allocator.Used;
      Bounds(pfa.Used(), kernel, heap, procs);
      var i := 0;
      while i < n
        invariant i <= n && Valid() && old(heap) <= heap && heap - old(heap) !! old(pfa.Used())
        invariant pfa.Used() == old(pfa.Used()) + heap && |heap| == |old(heap)| + i
        invariant |Free(pfa.Used())| + i == |Free(old(pfa.Used()))|
      {
        ghost var f;
        ok, f := GrowPage();
        if !ok { return; }
        i := i + 1;
      }
      return true;
    }

    /** `page_create_dir`: an empty user half below a copy of the kernel's mappings, to which the kernel's window on the
        new directory is added first; `phys` 0 when no frame is left. */
    method CreateDir() returns (dir: Directory, phys: nat, ghost f: nat)
      requires pfa.Valid() && 0 in pfa.Used() && |kernelDir| == ENTRIES
      modifies pfa.bitmap, this`kernelDir
      ensures pfa.Valid() && phys == f * PAGE_SIZE && |dir| == ENTRIES && |kernelDir| == ENTRIES
      ensures phys == 0 <==> Range(0, MAX_FRAMES) <= old(pfa.Used())
      ensures phys == 0 ==> pfa.Used() == old(pfa.Used()) && kernelDir == old(kernelDir)
      ensures phys != 0 ==> kernelDir == Windowed(old(kernelDir), f)
      ensures phys != 0 ==> f < MAX_FRAMES && f !in old(pfa.Used()) && pfa.Used() == old(pfa.Used()) + {f}
      ensures forall i: nat | i < USER_ENTRIES :: dir[i] == 0
      ensures phys != 0 ==> SeesKernel(dir, kernelDir)
    {
      dir := seq(ENTRIES, _ => 0);
      phys, f := TakeFrame();
      if phys == 0 { return; }
      hide FrameOf, Shares;
      var virt := (phys + USER_ENTRIES * PAGE_SIZE) % 0x1_0000_0000;
      WindowIndex(f);
      EntryMeaning(f, USER_FLAGS);
      kernelDir := kernelDir[virt / PAGE_SIZE := MapEntry(phys, USER_FLAGS)];
      ghost var shared := kernelDir;
      var i := USER_ENTRIES;
      while i < ENTRIES
        invariant USER_ENTRIES <= i <= ENTRIES && |dir| == ENTRIES
        invariant pfa.Valid() && pfa.Used() == old(pfa.Used()) + {f} && kernelDir == shared
        invariant forall j: nat | j < USER_ENTRIES :: dir[j] == 0
        invariant forall j: nat | USER_ENTRIES <= j < i :: Shares(dir[j], kernelDir[j])
        invariant forall j: nat | i <= j < ENTRIES :: dir[j] == 0
      {
        var entry := kernelDir[i];
        CopiedEntry(entry);
        if entry % 2 == 1 {
          dir := dir[i := entry / 0x1000 * 0x1000 + KERNEL_FLAGS];
        }
        i := i + 1;
      }
    }

    /** The loop body of `page_map_between`: a fresh frame for the page of `virt`, whatever was mapped there. */
    method MapPage(dir0: Directory, virt: nat) returns (dir: Directory, ok: bool, ghost f: nat)
      requires pfa.Valid() && 0 in pfa.Used() && |dir0| == ENTRIES && Injective(dir0) && UserFrames(dir0) <= pfa.Used()
      requires virt / PAGE_SIZE < USER_ENTRIES
      modifies pfa.bitmap
      ensures pfa.Valid() && (ok <==> !(Range(0, MAX_FRAMES) <= old(pfa.Used())))
      ensures !ok ==> dir == dir0 && pfa.Used() == old(pfa.Used())
      ensures ok ==> f < MAX_FRAMES && f !in old(pfa.Used()) && pfa.Used() == old(pfa.Used()) + {f}
      ensures ok ==>
        && dir == dir0[virt / PAGE_SIZE := f * PAGE_SIZE + 0x87] && UserPage(dir[virt / PAGE_SIZE])
        && Injective(dir) && UserFrames(dir) == (UserFrames(dir0) - Old(dir0[virt / PAGE_SIZE])) + {f}
    {
      hide UserFrames, Injective;
      dir, ok := dir0, false;
      var phys;
      phys, f := TakeFrame();
      if phys == 0 { return; }
      ghost var i := virt / PAGE_SIZE;
      Unmapped(dir0, i);
      Mapped(dir0[i := 0], i, f);
      assert dir0[i := 0][i := MapEntry(phys, USER_FLAGS)] == dir0[i := MapEntry(phys, USER_FLAGS)];
      EntryMeaning(f, USER_FLAGS);
      dir := dir[virt / PAGE_SIZE := MapEntry(phys, USER_FLAGS)];
      ok := true;
    }

    /** `page_map_between`: a fresh frame for each address the loop visits, as long as there are any. Entries that were
        present are overwritten; their frames, `lost`, stay marked and are mapped no more. */
    method MapBetween(dir0: Directory, start: nat, end: nat) returns (dir: Directory, ghost lost: set<nat>)
      requires pfa.Valid() && 0 in pfa.Used() && |dir0| == ENTRIES && Injective(dir0) && UserFrames(dir0) <= pfa.Used()
      requires end < USER_ENTRIES * PAGE_SIZE
      modifies pfa.bitmap
      ensures pfa.Valid() && old(pfa.Used()) <= pfa.Used()
      ensures (forall f | f in pfa.Used() - old(pfa.Used()) :: f < MAX_FRAMES)
      ensures |dir| == ENTRIES && Injective(dir) && lost <= UserFrames(dir0)
      ensures UserFrames(dir) == (UserFrames(dir0) - lost) + (pfa.Used() - old(pfa.Used()))
      ensures forall i: nat | i < ENTRIES && !Visited(start, end, i) :: dir[i] == dir0[i]
      ensures Range(0, MAX_FRAMES) <= pfa.Used() || AllMapped(dir, start, end)
      ensures forall f | f in lost :: Overwrites(dir0, start, end, f)
      ensures Range(0, MAX_FRAMES) <= pfa.Used() || forall f: nat | Overwrites(dir0, start, end, f) :: f in lost
      ensures start <= end && !(Range(0, MAX_FRAMES) <= pfa.Used()) ==>
        (WholeRange(dir, start, end) <==> Reaches(start, end) || Present(dir0[end / PAGE_SIZE]))
    {
      hide UserFrames, Injective, WholeRange, Overwrites, Reaches, Mapping, AllMapped, Visited;
      dir, lost := dir0, {};
      var first, last := start / 0x1000 * 0x1000, (end + 0xFFF) / 0x1000 * 0x1000;
      var virt := first;
      ghost var used0, k := pfa.Used(), 0;
      MappingStart(dir0, start, end, used0);
      while virt < last
        invariant pfa.Valid() && virt == first + k * PAGE_SIZE
        invariant Mapping(dir0, dir, lost, start, end, k, used0, pfa.Used())
        decreases last - virt
      {
        assert Visits(start, end, k);
        PageIndex(start, end, k);
        MappingFacts(dir0, dir, lost, start, end, k, used0, pfa.Used());
        ghost var dir1, used1 := dir, pfa.Used();
        var ok; ghost var f;
        dir, ok, f := MapPage(dir, virt);
        if !ok {
          MappingPart(dir0, dir, lost, start, end, k, used0, used1);
          return;
        }
        MappingStep(dir0, dir1, dir, lost, start, end, k, used0, used1, f);
        lost := lost + Old(dir0[start / PAGE_SIZE + k]);
        virt := virt + PAGE_SIZE;
        k := k + 1;
      }
      MappingPart(dir0, dir, lost, start, end, k, used0, pfa.Used());
      MappingDone(dir0, dir, lost, start, end, k, used0, pfa.Used());
    }

    /** The user mappings of `process_spawn` before the first task exists: code and BSS, then the heap. */
    method MapImage(dir0: Directory) returns (dir: Directory)
      requires pfa.Valid() && 0 in pfa.Used() && |dir0| == ENTRIES && forall i: nat | i < USER_ENTRIES :: dir0[i] == 0
      modifies pfa.bitmap
      ensures pfa.Valid() && old(pfa.Used()) <= pfa.Used()
      ensures (forall f | f in pfa.Used() - old(pfa.Used()) :: f < MAX_FRAMES)
      ensures |dir| == ENTRIES && Injective(dir) && UserFrames(dir) == pfa.Used() - old(pfa.Used())
      ensures forall i: nat | 3 <= i < ENTRIES :: dir[i] == dir0[i]
      ensures Range(0, MAX_FRAMES) <= pfa.Used() || (UserPage(dir[0]) && UserPage(dir[1]) && UserPage(dir[2]))
    {
      hide UserFrames, Injective;
      NothingMapped(dir0);
      SpawnRanges();
      ghost var lost;
      dir, lost := MapBetween(dir0, CODE_START, BSS_END);
      Nothing(dir0, CODE_START, BSS_END, lost);
      ghost var dir1 := dir;
      dir, lost := MapBetween(dir, HEAP_START, HEAP_END);
      Nothing(dir1, HEAP_START, HEAP_END, lost);
    }

    /** The page directory of a new process with its first mappings; `phys` 0 when no frame is left for it. */
    method BuildDir() returns (dir: Directory, phys: nat)
      requires Valid()
      modifies pfa.bitmap, this`kernelDir
      ensures Valid() && old(pfa.Used()) <= pfa.Used()
      ensures phys == 0 <==> Range(0, MAX_FRAMES) <= old(pfa.Used())
      ensures phys == 0 ==> pfa.Used() == old(pfa.Used())
      ensures phys != 0 ==>
        && |dir| == ENTRIES && Injective(dir) && phys / PAGE_SIZE in pfa.Used() - old(pfa.Used())
        && UserFrames(dir) == pfa.Used() - old(pfa.Used()) - {phys / PAGE_SIZE}
        && (forall i: nat | 3 <= i < USER_ENTRIES :: dir[i] == 0)
        && kernelDir == Windowed(old(kernelDir), phys / PAGE_SIZE) && SeesKernel(dir, kernelDir)
        && (Range(0, MAX_FRAMES) <= pfa.Used() || (UserPage(dir[0]) && UserPage(dir[1]) && UserPage(dir[2])))
    {
      hide UserFrames, Injective, Ownership, Shares;
      ghost var used := pfa.Used();
      Bounds(used, kernel, heap, procs);
      ghost var f;
      dir, phys, f := CreateDir();
      if phys == 0 { return; }
      dir := MapImage(dir);
      assert phys / PAGE_SIZE == f;
      MoreUsed(used, pfa.Used(), kernel, heap, procs);
    }

    /** `process_spawn`: `g0`, `g1` and `g2` are the heap growths that its allocations cause before the page directory,
        before the stack and after it; `procOk` and `taskOk` say that there was memory for the process and for the task.
        It fails without that memory, when no frame is left for the page directory, or by the heap's panic; then the
        frames in `leak` stay marked although nobody owns them. */
    method Spawn(pid: nat, g0: nat, g1: nat, g2: nat, procOk: bool, taskOk: bool)
      returns (ok: bool, ghost leak: set<nat>)
      requires Valid() && pid !in procs
      modifies this`procs, this`heap, this`kernelDir, pfa.bitmap
      ensures Valid() && old(heap) <= heap && heap - old(heap) !! old(pfa.Used())
      ensures !ok ==>
        && procs == old(procs) && pfa.Used() == old(pfa.Used()) + heap + leak && leak !! old(pfa.Used()) + heap
      ensures ok ==>
        && leak == {} && procOk && taskOk && pid in procs && procs == old(procs)[pid := procs[pid]]
        && pfa.Used() == old(pfa.Used()) + heap + FramesOf(procs[pid]) && FramesOf(procs[pid]) !! old(pfa.Used()) + heap
      ensures ok ==> Range(0, MAX_FRAMES) <= pfa.Used() || FullyMapped(procs[pid].dir)
      ensures ok ==> SeesKernel(procs[pid].dir, kernelDir) && kernelDir == Windowed(old(kernelDir), procs[pid].dirFrame)
      ensures !ok ==> (leak == {} <==> !procOk || |Free(old(pfa.Used()))| <= g0)
    {
      hide UserFrames, Injective, FramesOf, Ownership, Allocator.Used, Free, SeesKernel, Windowed, FullyMapped;
      leak := {};
      Bounds(pfa.Used(), kernel, heap, procs);
      if !procOk { return false, leak; }
      ok := GrowHeap(g0);
      if !ok { return; }
      ghost var used1, h1 := pfa.Used(), heap;
      NoneFree(used1);
      var dir, phys := BuildDir();
      ghost var used2 := pfa.Used();
      ok := GrowHeap(g1);
      ghost var used3 := pfa.Used();
      leak := used2 - used1;
      if !ok || phys == 0 || !taskOk {
        LeakSets(old(pfa.Used()), used1, used2, used3, old(heap), h1, heap);
        return false, leak;
      }
      ghost var dir1 := dir;
      dir := MapStack(dir);
      StillSees(dir1, dir, kernelDir);
      Bounds(pfa.Used(), kernel, heap, procs);
      leak := leak + (pfa.Used() - used3);
      SpawnOwns(used1, used2, used3, pfa.Used(), kernel, h1, heap, procs, pid, phys / PAGE_SIZE, dir);
      SpawnSets(old(pfa.Used()), used1, used2, used3, pfa.Used(), old(heap), h1, heap, leak);
      ghost var used4, h2 := pfa.Used(), heap;
      procs := procs[pid := Process(phys / PAGE_SIZE, dir)];
      ok := GrowHeap(g2);
      LaterSets(old(pfa.Used()), used4, pfa.Used(), old(heap), h2, heap, leak);
      if !ok {
        NoOwner(pfa.Used(), kernel, heap, procs, pid);
        procs := procs - {pid};
        assert procs == old(procs);
        return false, leak;
      }
      leak := {};
    }

    /** The stack mapping of `task_create`, for the first task. */
    method MapStack(dir0: Directory) returns (dir: Directory)
      requires Valid() && |dir0| == ENTRIES && Injective(dir0) && UserFrames(dir0) <= pfa.Used()
      requires forall i: nat | 3 <= i < USER_ENTRIES :: dir0[i] == 0
      modifies pfa.bitmap
      ensures Valid() && old(pfa.Used()) <= pfa.Used()
      ensures |dir| == ENTRIES && Injective(dir) && UserFrames(dir) == UserFrames(dir0) + (pfa.Used() - old(pfa.Used()))
      ensures UserPage(dir0[0]) && UserPage(dir0[1]) && UserPage(dir0[2]) ==>
        Range(0, MAX_FRAMES) <= pfa.Used() || FullyMapped(dir)
      ensures forall i: nat | USER_ENTRIES <= i < ENTRIES :: dir[i] == dir0[i]
    {
      hide UserFrames, Injective, Ownership;
      ghost var used3 := pfa.Used();
      Bounds(used3, kernel, heap, procs);
      SpawnRanges();
      ghost var lost;
      dir, lost := MapBetween(dir0, STACK_BOTTOM, STACK_TOP);
      Nothing(dir0, STACK_BOTTOM, STACK_TOP, lost);
      assert forall x | x in pfa.Used() :: x in used3 || x in pfa.Used() - used3;
      MoreUsed(used3, pfa.Used(), kernel, heap, procs);
    }

    /** `process_exit`: every frame the process owns, and no other, is free again. */
    method Exit(pid: nat)
      requires Valid() && pid in procs
      modifies this`procs, this`kernelDir, pfa.bitmap
      ensures Valid() && procs == old(procs) - {pid}
      ensures kernelDir == old(kernelDir)[(USER_ENTRIES + old(procs)[pid].dirFrame) % ENTRIES := 0]
      ensures pfa.Used() == old(pfa.Used()) - FramesOf(old(procs)[pid])
    {
      hide UserFrames, Injective, FramesOf;
      ghost var used0, p := pfa.Used(), procs[pid];
      assert Owns(p, used0, kernel + heap);
      hide Owns;
      ExitPre(p, used0, kernel + heap);
      var dir := procs[pid].dir;
      var i := 0;
      while i < USER_ENTRIES
        invariant i <= USER_ENTRIES && pfa.Valid() && |dir| == ENTRIES && Injective(dir)
        invariant forall j: nat | j < i :: !Present(dir[j])
        invariant UserFrames(dir) <= UserFrames(p.dir) && pfa.Used() == used0 - (UserFrames(p.dir) - UserFrames(dir))
        modifies pfa.bitmap
      {
        Unmapped(dir, i);
        if dir[i] % 2 == 1 {
          MapsHere(dir, i * PAGE_SIZE);
          var frame := PhysAddr(dir, i * PAGE_SIZE) / PAGE_SIZE;
          dir := dir[i := 0];
          pfa.Clear(frame);
        }
        i := i + 1;
      }
      NothingMapped(dir);
      var virt := (procs[pid].dirFrame * PAGE_SIZE + USER_ENTRIES * PAGE_SIZE) % 0x1_0000_0000;
      WindowIndex(p.dirFrame);
      kernelDir := kernelDir[virt / PAGE_SIZE := 0];
      pfa.Clear(procs[pid].dirFrame);
      ExitOwns(used0, kernel, heap, procs, pid);
      assert pfa.Used() == used0 - FramesOf(p);
      procs := procs - {pid};
    }
  }

  /** Spawning a process and letting it exit restores the bitmap, apart from the frames the kernel heap took. */
  method SpawnThenExit(m: Machine, pid: nat, g0: nat, g1: nat, g2: nat, procOk: bool, taskOk: bool) returns (ok: bool)
    requires m.Valid() && pid !in m.procs
    modifies m`procs, m`heap, m`kernelDir, m.pfa.bitmap
    ensures m.Valid() && m.procs == old(m.procs) && old(m.heap) <= m.heap
    ensures ok ==> m.pfa.Used() == old(m.pfa.Used()) + m.heap
  {
    hide Ownership, FramesOf, Allocator.Used;
    ghost var leak;
    ok, leak := m.Spawn(pid, g0, g1, g2, procOk, taskOk);
    if ok {
      ghost var own := FramesOf(m.procs[pid]);
      m.Exit(pid);
      assert m.pfa.Used() == (old(m.pfa.Used()) + m.heap + own) - own;
    }
  }

  /** Code, BSS, heap and the first task's stack are mapped for the user. */
  predicate FullyMapped(dir: Directory) {
    |dir| == ENTRIES && UserPage(dir[0]) && UserPage(dir[1]) && UserPage(dir[2]) && UserPage(dir[767])
  }

  /** The lookup of a user address gives 0 when its page is not present, and otherwise an address in a frame the
      process owns, as far into the frame as the other is into its page. */
  lemma MapsHere(dir: Directory, virt: nat)
    requires |dir| == ENTRIES && virt / PAGE_SIZE < USER_ENTRIES
    ensures var i, phys := virt / PAGE_SIZE, PhysAddr(dir, virt);
      if Present(dir[i])
      then
        && FrameOf(dir[i]) in UserFrames(dir)
        && phys / PAGE_SIZE == FrameOf(dir[i]) && phys % PAGE_SIZE == virt % PAGE_SIZE
      else phys == 0
  {
    var i := virt / PAGE_SIZE;
    if Present(dir[i]) {
      assert MapsTo(dir, i, FrameOf(dir[i]));
      Split(virt % PAGE_SIZE, FrameOf(dir[i]), PAGE_SIZE);
    }
  }

  lemma StillSees(dir: Directory, dir': Directory, kernelDir: Directory)
    requires SeesKernel(dir, kernelDir) && |dir'| == ENTRIES
    requires forall i: nat | USER_ENTRIES <= i < ENTRIES :: dir'[i] == dir[i]
    ensures SeesKernel(dir', kernelDir)
  {
  }

  lemma ExitPre(p: Process, used: set<nat>, taken: set<nat>)
    requires Owns(p, used, taken)
    ensures |p.dir| == ENTRIES && Injective(p.dir) && p.dirFrame !in UserFrames(p.dir)
    ensures UserFrames(p.dir) <= used && p.dirFrame in used
    ensures FramesOf(p) == UserFrames(p.dir) + {p.dirFrame}
  {
  }

  lemma LeakSets(used0: set<nat>, used1: set<nat>, used2: set<nat>, used3: set<nat>, h0: set<nat>, h1: set<nat>,
                 heap: set<nat>)
    requires used1 == used0 + h1 && h0 <= h1 && (h1 - h0) !! used0 && used1 <= used2
    requires used3 == used2 + heap && h1 <= heap && (heap - h1) !! used2
    ensures h0 <= heap && (heap - h0) !! used0
    ensures used3 == used0 + heap + (used2 - used1) && (used2 - used1) !! used0 + heap
  {
  }

  lemma LaterSets(used0: set<nat>, used4: set<nat>, used5: set<nat>, h0: set<nat>, h2: set<nat>, heap: set<nat>,
                  own: set<nat>)
    requires used4 == used0 + h2 + own && own !! used0 + h2 && h0 <= h2 && (h2 - h0) !! used0
    requires used5 == used4 + heap && h2 <= heap && (heap - h2) !! used4
    ensures h0 <= heap && (heap - h0) !! used0 && used5 == used0 + heap + own && own !! used0 + heap
  {
  }

  /** Frames may stay marked when their owner is forgotten. */
  lemma NoOwner(used: set<nat>, kernel: set<nat>, heap: set<nat>, procs: map<nat, Process>, pid: nat)
    requires Ownership(used, kernel, heap, procs) && pid in procs
    ensures Ownership(used, kernel, heap, procs - {pid})
  {
    forall q | q in procs - {pid}
      ensures Owns((procs - {pid})[q], used, kernel + heap)
    {
      assert Owns(procs[q], used, kernel + heap);
    }
  }

  lemma SpawnSets(used0: set<nat>, used1: set<nat>, used2: set<nat>, used3: set<nat>, used4: set<nat>,
                  h0: set<nat>, h1: set<nat>, heap: set<nat>, own: set<nat>)
    requires used1 == used0 + h1 && h0 <= h1 && (h1 - h0) !! used0 && used1 <= used2
    requires used3 == used2 + heap && h1 <= heap && (heap - h1) !! used2 && used3 <= used4
    requires own == (used2 - used1) + (used4 - used3)
    ensures h0 <= heap && (heap - h0) !! used0
    ensures used4 == used0 + heap + own && own !! used0 + heap
  {
  }

  lemma Bounds(used: set<nat>, kernel: set<nat>, heap: set<nat>, procs: map<nat, Process>)
    requires Ownership(used, kernel, heap, procs)
    ensures 0 in used && heap <= used && forall f | f in used :: f < MAX_FRAMES
  {
  }

  lemma MoreUsed(used: set<nat>, used': set<nat>, kernel: set<nat>, heap: set<nat>, procs: map<nat, Process>)
    requires Ownership(used, kernel, heap, procs) && used <= used' && forall f | f in used' :: f < MAX_FRAMES
    ensures Ownership(used', kernel, heap, procs)
  {
    forall p | p in procs
      ensures Owns(procs[p], used', kernel + heap)
    {
      assert Owns(procs[p], used, kernel + heap);
    }
  }

  /** The new process owns the directory frame and the frames of its two rounds of mappings, and nothing that
      anyone else owns. */
  lemma SpawnOwns(used1: set<nat>, used2: set<nat>, used3: set<nat>, used4: set<nat>, kernel: set<nat>,
                  h1: set<nat>, heap: set<nat>,
                  procs: map<nat, Process>, pid: nat, f: nat, dir: Directory)
    requires Ownership(used1, kernel, h1, procs) && Ownership(used3, kernel, heap, procs) && pid !in procs
    requires used1 <= used2 && used3 == used2 + heap && used3 <= used4 && (forall x | x in used4 :: x < MAX_FRAMES)
    requires h1 <= heap && (heap - h1) !! used2 && f in used2 - used1
    requires |dir| == ENTRIES && Injective(dir) && UserFrames(dir) == (used2 - used1 - {f}) + (used4 - used3)
    ensures var p := Process(f, dir);
      && Ownership(used4, kernel, heap, procs[pid := p])
      && FramesOf(p) == (used2 - used1) + (used4 - used3)
  {
    hide Injective, UserFrames;
    var p := Process(f, dir);
    var procs' := procs[pid := p];
    assert FramesOf(p) == (used2 - used1) + (used4 - used3);
    forall q | q in procs
      ensures Owns(procs[q], used4, kernel + heap) && FramesOf(procs[q]) !! FramesOf(p)
    {
      assert Owns(procs[q], used1, kernel + h1) && Owns(procs[q], used3, kernel + heap);
    }
    assert Owns(p, used4, kernel + heap);
    hide Owns, FramesOf;
    forall q | q in procs'
      ensures Owns(procs'[q], used4, kernel + heap)
    {
    }
  }

  lemma ExitOwns(used: set<nat>, kernel: set<nat>, heap: set<nat>, procs: map<nat, Process>, pid: nat)
    requires Ownership(used, kernel, heap, procs) && pid in procs
    ensures Ownership(used - FramesOf(procs[pid]), kernel, heap, procs - {pid})
  {
    assert Owns(procs[pid], used, kernel + heap);
    forall q | q in procs - {pid}
      ensures Owns((procs - {pid})[q], used - FramesOf(procs[pid]), kernel + heap)
    {
      assert Owns(procs[q], used, kernel + heap);
    }
  }

  /** The loop of `page_map_between` reaches its pass number `k`. */
  predicate Visits(start: nat, end: nat, k: int) {
    0 <= k && start / 0x1000 * 0x1000 + k * PAGE_SIZE < (end + 0xFFF) / 0x1000 * 0x1000
  }

  /** The last page of the range is visited: as far into its page, in 4 KiB steps, the start lies before the end. */
  predicate Reaches(start: nat, end: nat) {
    start % PAGE_SIZE / 0x1000 < (end % PAGE_SIZE + 0xFFF) / 0x1000
  }

  /** Every page that holds an address of `[start, end]` is present. */
  ghost predicate WholeRange(dir: Directory, start: nat, end: nat) {
    end / PAGE_SIZE < |dir| && forall i: nat | start / PAGE_SIZE <= i <= end / PAGE_SIZE :: Present(dir[i])
  }

  lemma Rounding(a: nat)
    ensures a / 0x1000 * 0x1000 == a / PAGE_SIZE * PAGE_SIZE + a % PAGE_SIZE / 0x1000 * 0x1000
    ensures (a + 0xFFF) / 0x1000 * 0x1000 == a / PAGE_SIZE * PAGE_SIZE + (a % PAGE_SIZE + 0xFFF) / 0x1000 * 0x1000
  {
    var q, r := a / PAGE_SIZE, a % PAGE_SIZE;
    Split(r % 0x1000, 1024 * q + r / 0x1000, 0x1000);
    Split((r + 0xFFF) % 0x1000, 1024 * q + (r + 0xFFF) / 0x1000, 0x1000);
  }

  /** The loop visits every page of the range but possibly the last, and that one exactly when the start reaches it. */
  lemma PagesVisited(start: nat, end: nat, k: int)
    requires start <= end
    ensures Visits(start, end, k) <==>
      0 <= k < end / PAGE_SIZE - start / PAGE_SIZE || (k == end / PAGE_SIZE - start / PAGE_SIZE && Reaches(start, end))
  {
    Rounding(start);
    Rounding(end);
    var a, b := start % PAGE_SIZE / 0x1000, (end % PAGE_SIZE + 0xFFF) / 0x1000;
    VisitsIff(start / PAGE_SIZE, end / PAGE_SIZE, a, b, k);
  }

  lemma VisitsIff(s: nat, e: nat, a: nat, b: nat, k: int)
    requires s <= e && a < 1024 && b <= 1024
    ensures s * PAGE_SIZE + a * 0x1000 + k * PAGE_SIZE < e * PAGE_SIZE + b * 0x1000 <==>
      k < e - s || (k == e - s && a < b)
  {
  }

  /** A range of two pages of which the loop maps one. */
  lemma MissedPage()
    ensures forall k: int :: Visits(0x300000, 0x4FFFFF, k) <==> k == 0
    ensures 0x300000 / PAGE_SIZE == 0 && 0x4FFFFF / PAGE_SIZE == 1 && !Reaches(0x300000, 0x4FFFFF)
  {
    forall k: int
      ensures Visits(0x300000, 0x4FFFFF, k) <==> k == 0
    {
      PagesVisited(0x300000, 0x4FFFFF, k);
    }
  }

  /** With every visited page present, the whole range is exactly when its last page is. */
  lemma RangeMapped(dir: Directory, start: nat, end: nat)
    requires |dir| == ENTRIES && end < USER_ENTRIES * PAGE_SIZE
    ensures start <= end && AllMapped(dir, start, end) ==>
      (WholeRange(dir, start, end) <==> Reaches(start, end) || Present(dir[end / PAGE_SIZE]))
    ensures start <= end ==> (Visits(start, end, end / PAGE_SIZE - start / PAGE_SIZE) <==> Reaches(start, end))
  {
    if start <= end {
      var s, e := start / PAGE_SIZE, end / PAGE_SIZE;
      PagesVisited(start, end, e - s);
      hide Visits, Reaches;
      if AllMapped(dir, start, end) && (Reaches(start, end) || Present(dir[e])) {
        forall i: nat | s <= i <= e
          ensures Present(dir[i])
        {
          PagesVisited(start, end, i - s);
        }
      }
    }
  }

  /** The ranges of a new process reach their last pages. */
  lemma SpawnRanges()
    ensures Reaches(CODE_START, BSS_END) && Reaches(HEAP_START, HEAP_END) && Reaches(STACK_BOTTOM, STACK_TOP)
    ensures forall k: int :: Visits(CODE_START, BSS_END, k) <==> 0 <= k <= 1
    ensures forall k: int :: Visits(HEAP_START, HEAP_END, k) <==> k == 0
    ensures forall k: int :: Visits(STACK_BOTTOM, STACK_TOP, k) <==> k == 0
  {
  }

  /** The entry of the kernel directory through which the frame `f` is seen. */
  lemma WindowIndex(f: nat)
    requires f < MAX_FRAMES
    ensures (f * PAGE_SIZE + USER_ENTRIES * PAGE_SIZE) % 0x1_0000_0000 / PAGE_SIZE == (USER_ENTRIES + f) % ENTRIES
  {
  }

  /** The loop of `page_map_between` maps page `i`. */
  predicate Visited(start: nat, end: nat, i: nat) {
    start / PAGE_SIZE <= i && Visits(start, end, i - start / PAGE_SIZE)
  }

  /** Frame `f` is mapped at a page that the loop maps anew. */
  ghost predicate Overwrites(dir: Directory, start: nat, end: nat, f: nat) {
    exists i: nat :: Visited(start, end, i) && MapsTo(dir, i, f)
  }

  lemma Nothing(dir: Directory, start: nat, end: nat, lost: set<nat>)
    requires forall f | f in lost :: Overwrites(dir, start, end, f)
    requires forall i: nat | Visited(start, end, i) && i < |dir| :: !Present(dir[i])
    ensures lost == {}
  {
  }

  lemma OverwrittenHere(dir: Directory, start: nat, end: nat, i: nat)
    requires |dir| == ENTRIES && i < USER_ENTRIES && Visited(start, end, i)
    ensures forall f | f in Old(dir[i]) :: Overwrites(dir, start, end, f)
  {
    if Present(dir[i]) { assert MapsTo(dir, i, FrameOf(dir[i])); }
  }

  lemma AllLost(dir: Directory, start: nat, end: nat, lost: set<nat>)
    requires forall i: nat | Visited(start, end, i) && i < |dir| :: Old(dir[i]) <= lost
    ensures forall f: nat | Overwrites(dir, start, end, f) :: f in lost
  {
  }

  /** The directory after `k` passes of the loop. */
  ghost predicate Mapping(dir0: Directory, dir: Directory, lost: set<nat>, start: nat, end: nat, k: nat,
                          used0: set<nat>, used: set<nat>) {
    var lo := start / PAGE_SIZE;
    && |dir0| == |dir| == ENTRIES && 0 in used0 && used0 <= used && (forall f | f in used - used0 :: f < MAX_FRAMES)
    && Injective(dir) && UserFrames(dir0) <= used0 && lost <= UserFrames(dir0)
    && UserFrames(dir) == (UserFrames(dir0) - lost) + (used - used0)
    && (forall i: nat | i < ENTRIES && !(lo <= i < lo + k) :: dir[i] == dir0[i])
    && (forall i: nat | lo <= i < lo + k :: i < ENTRIES && UserPage(dir[i]) && Visited(start, end, i))
    && (forall f | f in lost :: Overwrites(dir0, start, end, f))
    && (forall i: nat | lo <= i < lo + k && i < ENTRIES :: Old(dir0[i]) <= lost)
  }

  lemma MappingStart(dir: Directory, start: nat, end: nat, used: set<nat>)
    requires |dir| == ENTRIES && 0 in used && Injective(dir) && UserFrames(dir) <= used
    ensures Mapping(dir, dir, {}, start, end, 0, used, used)
  {
    hide UserFrames, Injective;
  }

  lemma MappingFacts(dir0: Directory, dir: Directory, lost: set<nat>, start: nat, end: nat, k: nat,
                     used0: set<nat>, used: set<nat>)
    requires Mapping(dir0, dir, lost, start, end, k, used0, used)
    ensures 0 in used && |dir| == ENTRIES && Injective(dir) && UserFrames(dir) <= used
  {
    hide UserFrames, Injective, Overwrites, Visited;
  }

  lemma MappingStep(dir0: Directory, dir1: Directory, dir: Directory, lost: set<nat>, start: nat, end: nat, k: nat,
                    used0: set<nat>, used1: set<nat>, f: nat)
    requires Mapping(dir0, dir1, lost, start, end, k, used0, used1) && Visits(start, end, k)
    requires var i := start / PAGE_SIZE + k;
      && i < USER_ENTRIES && f < MAX_FRAMES && f !in used1 && Injective(dir)
      && dir == dir1[i := f * PAGE_SIZE + 0x87] && UserPage(dir[i])
      && UserFrames(dir) == (UserFrames(dir1) - Old(dir1[i])) + {f}
    ensures Mapping(dir0, dir, lost + Old(dir0[start / PAGE_SIZE + k]), start, end, k + 1, used0, used1 + {f})
  {
    hide UserFrames, Injective, Overwrites, Old, UserPage, Visits;
    var i := start / PAGE_SIZE + k;
    FrameHere(dir0, i);
    FrameHere(dir1, i);
    MapSets(UserFrames(dir0), lost, UserFrames(dir1), Old(dir1[i]), UserFrames(dir), used0, used1, f);
    OverwrittenHere(dir0, start, end, i);
  }

  lemma MappingPart(dir0: Directory, dir: Directory, lost: set<nat>, start: nat, end: nat, k: nat,
                    used0: set<nat>, used: set<nat>)
    requires Mapping(dir0, dir, lost, start, end, k, used0, used)
    ensures used0 <= used && (forall f | f in used - used0 :: f < MAX_FRAMES)
    ensures |dir0| == |dir| == ENTRIES && Injective(dir) && lost <= UserFrames(dir0)
    ensures UserFrames(dir) == (UserFrames(dir0) - lost) + (used - used0)
    ensures forall i: nat | i < ENTRIES && !Visited(start, end, i) :: dir[i] == dir0[i]
    ensures forall f | f in lost :: Overwrites(dir0, start, end, f)
  {
    hide UserFrames, Injective, Overwrites, Visited;
  }

  /** After the last pass every visited page is mapped anew. */
  lemma MappingDone(dir0: Directory, dir: Directory, lost: set<nat>, start: nat, end: nat, k: nat,
                    used0: set<nat>, used: set<nat>)
    requires Mapping(dir0, dir, lost, start, end, k, used0, used) && !Visits(start, end, k)
    requires end < USER_ENTRIES * PAGE_SIZE
    ensures AllMapped(dir, start, end) && forall f: nat | Overwrites(dir0, start, end, f) :: f in lost
    ensures start <= end ==> (WholeRange(dir, start, end) <==> Reaches(start, end) || Present(dir0[end / PAGE_SIZE]))
  {
    hide UserFrames, Injective, Overwrites, WholeRange, Reaches;
    assert forall j: nat | Visits(start, end, j) :: j < k;
    AllLost(dir0, start, end, lost);
    RangeMapped(dir, start, end);
  }

  lemma FrameHere(dir: Directory, i: nat)
    requires |dir| == ENTRIES && i < USER_ENTRIES
    ensures Old(dir[i]) <= UserFrames(dir)
  {
    if Present(dir[i]) { assert MapsTo(dir, i, FrameOf(dir[i])); }
  }

  lemma MapSets(user0: set<nat>, lost: set<nat>, user1: set<nat>, gone: set<nat>, user: set<nat>,
                used0: set<nat>, used1: set<nat>, f: nat)
    requires user1 == (user0 - lost) + (used1 - used0) && user == (user1 - gone) + {f} && gone <= user1
    requires lost <= user0 <= used0 <= used1 && f !in used1 && gone <= user0
    ensures user == (user0 - (lost + gone)) + ((used1 + {f}) - used0) && lost + gone <= user0
  {
  }

  /** Every page that the loop visits is a user page. */
  ghost predicate AllMapped(dir: Directory, start: nat, end: nat) {
    forall k: nat | Visits(start, end, k) :: start / PAGE_SIZE + k < |dir| && UserPage(dir[start / PAGE_SIZE + k])
  }

  lemma PageIndex(start: nat, end: nat, k: nat)
    requires Visits(start, end, k) && end < USER_ENTRIES * PAGE_SIZE
    ensures (start / 0x1000 * 0x1000 + k * PAGE_SIZE) / PAGE_SIZE == start / PAGE_SIZE + k < USER_ENTRIES
  {
    var first, q, r := start / 0x1000 * 0x1000, start / PAGE_SIZE, start % PAGE_SIZE;
    assert start == q * PAGE_SIZE + r;
    var r' := first - q * PAGE_SIZE;
    assert 0 <= r' < PAGE_SIZE by {
      assert q * PAGE_SIZE == (q * 1024) * 0x1000;
    }
    Split(r', q + k, PAGE_SIZE);
    assert first + k * PAGE_SIZE == r' + PAGE_SIZE * (q + k);
    assert (end + 0xFFF) / 0x1000 * 0x1000 <= USER_ENTRIES * PAGE_SIZE;
  }

  /** A frame that was free goes to the kernel heap. */
  lemma HeapTakes(used: set<nat>, kernel: set<nat>, heap: set<nat>, procs: map<nat, Process>, f: nat)
    requires Ownership(used, kernel, heap, procs) && f !in used && f < MAX_FRAMES
    ensures Ownership(used + {f}, kernel, heap + {f}, procs)
  {
    forall p | p in procs
      ensures Owns(procs[p], used + {f}, kernel + (heap + {f}))
    {
      assert Owns(procs[p], used, kernel + heap);
    }
  }
}
