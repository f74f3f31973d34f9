/** Physical frames: the bitmap allocator of `pfa.c` and the boot-time marking of `kernel.c`.
    A 32-bit bitmap word is its 32 bits. */
module Frames {

  const MAX_FRAMES: nat := 1024
  const WORDS: nat := 32
  const PAGE_SIZE: nat := 0x400000
  const KERNEL_PHYS_END: nat := 0x02FFFFFF
  const FB_BASE: nat := 0xFD000000
  const FB_SIZE: nat := 800 * 600 * 4

  type Word = seq<bool>

  /** Frame `f` holds a byte of the kernel's memory or of the framebuffer. */
  predicate HoldsKernel(f: nat) {
    f * PAGE_SIZE <= KERNEL_PHYS_END || (f * PAGE_SIZE < FB_BASE + FB_SIZE && FB_BASE < (f + 1) * PAGE_SIZE)
  }

  ghost function Reserved(): set<nat> {
    set f: nat | f < MAX_FRAMES && HoldsKernel(f)
  }

  predicate Between(first: nat, f: nat, last: nat) {
    first <= f < last
  }

  /** The frames from `first` up to, not including, `last`. */
  ghost function Range(first: nat, last: nat): (s: set<nat>)
    ensures forall f: nat :: f in s <==> f < MAX_FRAMES && first <= f < last
  {
    set f: nat | f < MAX_FRAMES && Between(first, f, last)
  }

  /** An entry of the multiboot memory map. */
  datatype Region = Region(base: nat, length: nat, kind: RegionKind)
  datatype RegionKind = Available | Unusable | Other

  ghost function FramesIn(r: Region): set<nat> {
    Range(r.base / PAGE_SIZE, (r.base + r.length) / PAGE_SIZE)
  }

  /** The frames marked used after the regions of a memory map, in order. */
  ghost function Marked(used: set<nat>, regions: seq<Region>): set<nat> {
    if regions == [] then used
    else
      var m := Marked(used, regions[..|regions| - 1]);
      var r := regions[|regions| - 1];
      match r.kind
      case Available => m - FramesIn(r)
      case Unusable => m + FramesIn(r)
      case Other => m
  }

  /** Region `r` decides about frame `f`: it is available or unusable, and the frame ends inside it. */
  predicate Decides(r: Region, f: nat) {
    r.kind != Other && r.base < (f + 1) * PAGE_SIZE <= r.base + r.length
  }

  /** Region `i` is the last one of the map that decides about frame `f`. */
  ghost predicate Last(regions: seq<Region>, f: nat, i: nat) {
    i < |regions| && Decides(regions[i], f) && forall j | i < j < |regions| :: !Decides(regions[j], f)
  }

  /** The last word that a memory map has on frame `f` is that it is available. */
  ghost predicate SaidAvailable(regions: seq<Region>, f: nat) {
    exists i: nat :: Last(regions, f, i) && regions[i].kind == Available
  }

  ghost predicate Unmentioned(regions: seq<Region>, f: nat) {
    forall i | 0 <= i < |regions| :: !Decides(regions[i], f)
  }

  lemma FramesInMeaning(r: Region, f: nat)
    requires f < MAX_FRAMES
    ensures f in FramesIn(r) <==> r.base < (f + 1) * PAGE_SIZE <= r.base + r.length
  {
  }

  /** What a memory map makes of a frame: its last word, or, if it has none, what the frame was before. */
  lemma {:induction false} MarkedMeaning(used: set<nat>, regions: seq<Region>, f: nat)
    requires f < MAX_FRAMES
    ensures f !in Marked(used, regions) <==> SaidAvailable(regions, f) || (Unmentioned(regions, f) && f !in used)
    decreases |regions|
  {
    if regions != [] {
      var n := |regions| - 1;
      var front := regions[..n];
      MarkedMeaning(used, front, f);
      FramesInMeaning(regions[n], f);
      if Decides(regions[n], f) {
        assert Last(regions, f, n);
      } else {
        assert forall i: nat :: Last(regions, f, i) <==> Last(front, f, i);
      }
    }
  }

  /** The frames that a region stands for lie wholly inside it if and only if it starts on a frame boundary or stands
      for none: the frame that it starts in the middle of counts as a whole. */
  lemma WholeFrames(r: Region)
    ensures (forall f | f in FramesIn(r) :: r.base <= f * PAGE_SIZE && (f + 1) * PAGE_SIZE <= r.base + r.length) <==>
      || r.base % PAGE_SIZE == 0
      || (r.base + r.length) / PAGE_SIZE <= r.base / PAGE_SIZE || MAX_FRAMES <= r.base / PAGE_SIZE
  {
    var first := r.base / PAGE_SIZE;
    assert first < (r.base + r.length) / PAGE_SIZE && first < MAX_FRAMES ==> first in FramesIn(r);
    forall f | f in FramesIn(r)
      ensures (f + 1) * PAGE_SIZE <= r.base + r.length && (r.base % PAGE_SIZE == 0 ==> r.base <= f * PAGE_SIZE)
    {
      FramesInMeaning(r, f);
    }
  }

  /** A memory map that frees a frame of which the first byte is not available. */
  lemma PartialFrame()
    ensures var r := Region(0x03000001, 0x003FFFFF, Available);
      12 !in Marked(Range(0, MAX_FRAMES), [r]) && 12 * PAGE_SIZE < r.base
  {
    var r := Region(0x03000001, 0x003FFFFF, Available);
    assert [r][..0] == [];
  }

  class Allocator {
    const bitmap: array<Word>

    ghost predicate Valid()
      reads this, bitmap
    {
      bitmap.Length == WORDS && forall w | 0 <= w < WORDS :: |bitmap[w]| == 32
    }

    ghost predicate Bit(f: nat)
      requires Valid() && f < MAX_FRAMES
      reads this, bitmap
    {
      bitmap[f / 32][f % 32]
    }

    /** The frames whose bit is set. */
    ghost function Used(): set<nat>
      requires Valid()
      reads this, bitmap
    {
      set f: nat | f < MAX_FRAMES && Bit(f)
    }

    /** `pfa_init` */
    constructor ()
      ensures Valid() && fresh(bitmap) && Used() == Range(0, MAX_FRAMES)
    {
      bitmap := new Word[WORDS](_ => seq(32, _ => true));
    }

    /** `pfa_set` */
    method Set(f: nat)
      requires Valid() && f < MAX_FRAMES
      modifies bitmap
      ensures Valid() && Used() == old(Used()) + {f}
    {
      var index, offset := f / 32, f % 32;
      bitmap[index] := bitmap[index][offset := true];
      assert forall g: nat | g < MAX_FRAMES :: Bit(g) == (old(Bit(g)) || g == f);
    }

    /** `pfa_clear` */
    method Clear(f: nat)
      requires Valid() && f < MAX_FRAMES
      modifies bitmap
      ensures Valid() && Used() == old(Used()) - {f}
    {
      var index, offset := f / 32, f % 32;
      bitmap[index] := bitmap[index][offset := false];
      assert forall g: nat | g < MAX_FRAMES :: Bit(g) == (old(Bit(g)) && g != f);
    }

    /** `pfa_test` */
    method Test(f: nat) returns (used: bool)
      requires Valid() && f < MAX_FRAMES
      ensures used == (f in Used())
    {
      return bitmap[f / 32][f % 32];
    }

    /** `pfa_alloc`: marks the lowest free frame and returns its address; 0 when there is none (or it is frame 0). */
    method Alloc() returns (phys: nat)
      requires Valid()
      modifies bitmap
      ensures Valid()
      ensures (forall f: nat | f < MAX_FRAMES :: f in old(Used())) ==> phys == 0 && Used() == old(Used())
      ensures !(forall f: nat | f < MAX_FRAMES :: f in old(Used())) ==>
        exists f: nat | f < MAX_FRAMES ::
          && f !in old(Used()) && (forall g: nat | g < f :: g in old(Used()))
          && phys == f * PAGE_SIZE && Used() == old(Used()) + {f}
    {
      var f := 0;
      while f < MAX_FRAMES
        invariant Valid() && Used() == old(Used())
        invariant f <= MAX_FRAMES && forall g: nat | g < f :: g in Used()
      {
        var used := Test(f);
        if !used {
          Set(f);
          return f * PAGE_SIZE;
        }
        f := f + 1;
      }
      return 0;
    }

    /** The inner loops of `_init_mmap`. */
    method Mark(first: nat, last: nat, used: bool)
      requires Valid()
      modifies bitmap
      ensures Valid()
      ensures Used() == if used then old(Used()) + Range(first, last) else old(Used()) - Range(first, last)
    {
      var f := first;
      while f < last && f < MAX_FRAMES
        invariant first <= f && (f <= last || f == first) && (f <= MAX_FRAMES || f == first) && Valid()
        invariant Used() == if used then old(Used()) + Range(first, f) else old(Used()) - Range(first, f)
      {
        if used { Set(f); } else { Clear(f); }
        f := f + 1;
      }
    }

    /** `_init_mmap` with `_mark_kernel` and `_mark_fb`. */
    method InitMmap(regions: seq<Region>)
      requires Valid()
      modifies bitmap
      ensures Valid()
      ensures forall f: nat | f < MAX_FRAMES ::
        f !in Used() <==>
          && f !in Reserved()
          && (SaidAvailable(regions, f) || (Unmentioned(regions, f) && f !in old(Used())))
    {
      ghost var used0 := Used();
      var i := 0;
      while i < |regions|
        invariant i <= |regions| && Valid() && Used() == Marked(used0, regions[..i])
      {
        var r := regions[i];
        var first, last := r.base / PAGE_SIZE, (r.base + r.length) / PAGE_SIZE;
        assert regions[..i + 1][..i] == regions[..i];
        match r.kind {
          case Available => Mark(first, last, false);
          case Unusable => Mark(first, last, true);
          case Other =>
        }
        i := i + 1;
      }
      assert regions[..i] == regions;
      Mark(0, KERNEL_PHYS_END / PAGE_SIZE + 1, true);
      Mark(FB_BASE / PAGE_SIZE, (FB_BASE + FB_SIZE - 1) / PAGE_SIZE + 1, true);
      forall f: nat | f < MAX_FRAMES
        ensures f !in Marked(used0, regions) <==>
          SaidAvailable(regions, f) || (Unmentioned(regions, f) && f !in used0)
      {
        MarkedMeaning(used0, regions, f);
      }
    }
  }
}
