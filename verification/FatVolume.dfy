/** A FAT16 volume as `fat16.c` lays it out on a flat byte disk (Microsoft's "FAT: General Overview of
    On-Disk Format" v1.03, sections "Boot Sector and BPB" and "FAT Data Structure"): where the tables,
    the root directory and the data clusters are, and what one store changes in that picture. */
module FatVolume {
  import opened SectorStream
  import opened Words

  const PARTITION: nat := 0x100000
  /** `FAT16_MAX_CLUSTERS`: cluster numbers below it are scanned and stored. */
  const MAX: nat := 65525
  const END_OF_CHAIN: int := 0xFFF8
  const DIR_ENTRY: nat := 32

  /** The fields of the BIOS parameter block that determine the layout. */
  datatype Bpb = Bpb(bytsPerSec: nat, secPerClus: nat, rsvdSec: nat, numFats: nat, rootEntCnt: nat, fatSz16: nat)

  /** The headers this model covers: whole 512-byte sectors, a cluster size that fits 16 bits, and a FAT. */
  ghost predicate WellFormed(b: Bpb) {
    && 512 <= b.bytsPerSec && b.bytsPerSec % 512 == 0
    && 1 <= b.secPerClus && b.secPerClus * b.bytsPerSec <= 0xFFFF
    && 1 <= b.numFats
  }

  function FatTableOffset(b: Bpb): nat {
    b.rsvdSec * b.bytsPerSec
  }

  function RootDirOffset(b: Bpb): nat {
    b.bytsPerSec * (b.rsvdSec + b.numFats * b.fatSz16)
  }

  function RootDirSectors(b: Bpb): nat
    requires 0 < b.bytsPerSec
  {
    (b.rootEntCnt * DIR_ENTRY + b.bytsPerSec - 1) / b.bytsPerSec
  }

  /** `fat16_get_sector_from_cluster` */
  function SectorFromCluster(b: Bpb, c: nat): nat
    requires 0 < b.bytsPerSec && 2 <= c
  {
    b.rsvdSec + b.numFats * b.fatSz16 + RootDirSectors(b) + (c - 2) * b.secPerClus
  }

  function ClusterPos(b: Bpb, c: nat): nat
    requires 0 < b.bytsPerSec && 2 <= c
  {
    PARTITION + SectorFromCluster(b, c) * b.bytsPerSec
  }

  function ClusterSize(b: Bpb): nat {
    b.secPerClus * b.bytsPerSec
  }

  // ----- geometry -------------------------------------------------------------------

  /** The same layout as four numbers; `entries` counts the cluster numbers below `MAX` that FAT 1 has an entry for. */
  datatype Geometry = Geometry(fatPos: nat, entries: nat, dataPos: nat, size: nat)

  function GeometryOf(b: Bpb): Geometry
    requires 0 < b.bytsPerSec
  {
    Geometry(PARTITION + FatTableOffset(b), Lesser(MAX, b.fatSz16 * b.bytsPerSec / 2), ClusterPos(b, 2), ClusterSize(b))
  }

  function Lesser(a: nat, b: nat): nat {
    if a < b then a else b
  }

  ghost predicate Sound(g: Geometry) {
    && g.fatPos % SECTOR == 0 && g.dataPos % SECTOR == 0 && g.size % SECTOR == 0
    && 0 < g.size && g.entries <= MAX && g.fatPos + 2 * g.entries <= g.dataPos
  }

  function At(g: Geometry, c: nat): nat
    requires 2 <= c
  {
    g.dataPos + g.size * (c - 2)
  }

  lemma Multiple(a: nat, d: nat)
    requires d % SECTOR == 0
    ensures (a * d) % SECTOR == 0
  {
    var q := d / SECTOR;
    assert d == SECTOR * q;
    assert a * d == SECTOR * (a * q);
    Split(0, a * q, SECTOR);
  }

  lemma RoundUp(n: nat, d: nat)
    requires 0 < d
    ensures n <= (n + d - 1) / d * d < n + d
  {
    var q, r := (n + d - 1) / d, (n + d - 1) % d;
    assert n + d - 1 == q * d + r;
  }

  lemma TablesThenRoot(b: Bpb)
    ensures FatTableOffset(b) + b.numFats * (b.fatSz16 * b.bytsPerSec) == RootDirOffset(b)
  {
    var s, n, f := b.bytsPerSec, b.numFats, b.fatSz16;
    assert n * (f * s) == s * (n * f);
    assert s * (b.rsvdSec + n * f) == s * b.rsvdSec + s * (n * f);
  }

  /** The data area starts on the first sector boundary at or behind the end of the root directory. */
  lemma FirstCluster(b: Bpb)
    requires 0 < b.bytsPerSec
    ensures var end, first := RootDirOffset(b) + b.rootEntCnt * DIR_ENTRY, ClusterPos(b, 2) - PARTITION;
      first % b.bytsPerSec == 0 && end <= first < end + b.bytsPerSec
  {
    var s, x, r := b.bytsPerSec, b.rsvdSec + b.numFats * b.fatSz16, RootDirSectors(b);
    RoundUp(b.rootEntCnt * DIR_ENTRY, s);
    assert SectorFromCluster(b, 2) == x + r;
    hide RootDirSectors, SectorFromCluster;
    assert (x + r) * s == s * x + r * s == s * (x + r);
    Split(0, x + r, s);
  }

  lemma ClusterAt(b: Bpb, c: nat)
    requires 0 < b.bytsPerSec && 2 <= c
    ensures ClusterPos(b, c) == At(GeometryOf(b), c)
  {
    Distribute(b.rsvdSec + b.numFats * b.fatSz16 + RootDirSectors(b), c - 2, b.secPerClus, b.bytsPerSec);
  }

  lemma Distribute(a: nat, k: nat, p: nat, s: nat)
    ensures (a + k * p) * s == (a + 0 * p) * s + (p * s) * k
  {
    assert (a + k * p) * s == a * s + (k * p) * s;
    assert (k * p) * s == (p * s) * k;
  }

  /** Its clusters follow one another without a gap. */
  lemma NoGaps(b: Bpb, c: nat)
    requires 0 < b.bytsPerSec && 2 <= c
    ensures ClusterPos(b, c + 1) == ClusterPos(b, c) + ClusterSize(b)
  {
    hide ClusterPos;
    ClusterAt(b, c);
    ClusterAt(b, c + 1);
    NextAt(GeometryOf(b), c);
  }

  lemma NextAt(g: Geometry, c: nat)
    requires 2 <= c
    ensures At(g, c + 1) == At(g, c) + g.size
  {
  }

  lemma GeometrySound(b: Bpb)
    requires WellFormed(b)
    ensures Sound(GeometryOf(b))
  {
    FirstFatFits(b);
    GeometryAligned(b);
  }

  lemma Aligned(x: nat)
    requires x % SECTOR == 0
    ensures (PARTITION + x) % SECTOR == 0
  {
  }

  lemma AtLeast(n: nat, x: nat)
    requires 1 <= n
    ensures x <= n * x
  {
    MulStep(x, 0, n);
  }

  lemma FirstFatFits(b: Bpb)
    requires WellFormed(b)
    ensures var g := GeometryOf(b); g.entries <= MAX && g.fatPos + 2 * g.entries <= g.dataPos
  {
    hide ClusterPos, RootDirOffset, FatTableOffset;
    TablesThenRoot(b);
    FirstCluster(b);
    AtLeast(b.numFats, b.fatSz16 * b.bytsPerSec);
  }

  lemma GeometryAligned(b: Bpb)
    requires WellFormed(b)
    ensures var g := GeometryOf(b);
      g.fatPos % SECTOR == 0 && g.dataPos % SECTOR == 0 && g.size % SECTOR == 0 && 0 < g.size
  {
    Multiple(b.rsvdSec, b.bytsPerSec);
    Multiple(SectorFromCluster(b, 2), b.bytsPerSec);
    Multiple(b.secPerClus, b.bytsPerSec);
    AtLeast(b.secPerClus, b.bytsPerSec);
    hide SectorFromCluster, WellFormed;
    Aligned(b.rsvdSec * b.bytsPerSec);
    Aligned(SectorFromCluster(b, 2) * b.bytsPerSec);
  }

  lemma ClustersApart(g: Geometry, c: nat, d: nat)
    requires 2 <= c < d
    ensures At(g, c) + g.size <= At(g, d)
  {
    MulStep(g.size, c - 2, d - 2);
  }

  /** For every header with sectors and at least one FAT: FAT 1, the other FATs, the root directory and every two
      clusters occupy disjoint bytes. */
  lemma RegionsDisjoint(b: Bpb, c: nat, d: nat)
    requires 0 < b.bytsPerSec && 1 <= b.numFats && 2 <= c < d
    ensures var fat := PARTITION + FatTableOffset(b);
      && fat + b.fatSz16 * b.bytsPerSec <= fat + b.numFats * (b.fatSz16 * b.bytsPerSec) == PARTITION + RootDirOffset(b)
      && PARTITION + RootDirOffset(b) + b.rootEntCnt * DIR_ENTRY <= ClusterPos(b, c)
      && ClusterPos(b, c) + ClusterSize(b) <= ClusterPos(b, d)
  {
    hide ClusterPos, RootDirOffset, FatTableOffset;
    TablesThenRoot(b);
    FirstCluster(b);
    AtLeast(b.numFats, b.fatSz16 * b.bytsPerSec);
    ClusterAt(b, c);
    ClusterAt(b, d);
    ClustersApart(GeometryOf(b), c, d);
    if 2 < c { ClustersApart(GeometryOf(b), 2, c); }
  }

  // ----- the two views of a disk ------------------------------------------------------

  /** What the driver takes for the FAT entry of cluster `c`, little-endian, whether or not FAT 1 has one. */
  function Entry(disk: seq<int>, g: Geometry, c: nat): int
    requires g.fatPos + 2 * c + 2 <= |disk|
  {
    disk[g.fatPos + 2 * c] + 256 * disk[g.fatPos + 2 * c + 1]
  }

  /** FAT 1. */
  ghost function Table(disk: seq<int>, g: Geometry): (t: seq<int>)
    requires g.fatPos + 2 * g.entries <= |disk|
    ensures |t| == g.entries && forall c: nat | c < g.entries :: t[c] == Entry(disk, g, c)
  {
    seq(g.entries, c requires 0 <= c < g.entries => Entry(disk, g, c))
  }

  predicate OnDisk(disk: seq<int>, g: Geometry, c: nat) {
    2 <= c && At(g, c) + g.size <= |disk|
  }

  function Cluster(disk: seq<int>, g: Geometry, c: nat): (r: seq<int>)
    requires OnDisk(disk, g, c)
    ensures |r| == g.size
  {
    disk[At(g, c)..At(g, c) + g.size]
  }

  /** Storing one FAT entry changes the table at that entry only, and no byte of any cluster. */
  lemma EntryStored(disk: seq<int>, g: Geometry, c: nat, v: nat)
    requires Sound(g) && c < g.entries && g.fatPos + 2 * g.entries <= |disk| && v < 0x1_0000
    ensures var disk' := Splice(disk, g.fatPos + 2 * c, [v % 256, v / 256]);
      && Table(disk', g) == Table(disk, g)[c := v]
      && forall d: nat | OnDisk(disk, g, d) :: Cluster(disk', g, d) == Cluster(disk, g, d)
  {
    var disk' := Splice(disk, g.fatPos + 2 * c, [v % 256, v / 256]);
    forall d: nat | OnDisk(disk, g, d)
      ensures Cluster(disk', g, d) == Cluster(disk, g, d)
    {
      BehindTables(g, d);
      hide At;
    }
    hide At, OnDisk, Cluster;
    forall d: nat | d < g.entries
      ensures Table(disk', g)[d] == Table(disk, g)[c := v][d]
    {
      OneEntry(disk, g, c, v, d);
    }
  }

  lemma OneEntry(disk: seq<int>, g: Geometry, c: nat, v: nat, d: nat)
    requires g.fatPos + 2 * c + 2 <= |disk| && g.fatPos + 2 * d + 2 <= |disk| && v < 0x1_0000
    ensures Entry(Splice(disk, g.fatPos + 2 * c, [v % 256, v / 256]), g, d) == if d == c then v else Entry(disk, g, d)
  {
  }

  lemma OtherCluster(disk: seq<int>, g: Geometry, c: nat, d: nat, bytes: seq<int>)
    requires OnDisk(disk, g, c) && OnDisk(disk, g, d) && c != d && |bytes| <= g.size
    ensures Cluster(Splice(disk, At(g, c), bytes), g, d) == Cluster(disk, g, d)
  {
    if c < d { ClustersApart(g, c, d); } else { ClustersApart(g, d, c); }
  }

  lemma SameTable(disk: seq<int>, disk': seq<int>, g: Geometry)
    requires g.fatPos + 2 * g.entries <= |disk| == |disk'|
    requires forall i: nat | g.fatPos <= i < g.fatPos + 2 * g.entries :: disk'[i] == disk[i]
    ensures Table(disk', g) == Table(disk, g)
  {
    forall d: nat | d < g.entries
      ensures Table(disk', g)[d] == Table(disk, g)[d]
    {
      assert Table(disk', g)[d] == Entry(disk', g, d);
    }
  }

  lemma BehindTables(g: Geometry, c: nat)
    requires Sound(g) && 2 <= c
    ensures g.fatPos + 2 * g.entries <= At(g, c)
  {
    assert 0 <= g.size * (c - 2);
  }

  lemma OwnCluster(disk: seq<int>, p: nat, size: nat, bytes: seq<int>)
    requires p + size <= |disk| && |bytes| <= size
    ensures Splice(disk, p, bytes)[p..p + size] == bytes + disk[p..p + size][|bytes|..]
  {
  }

  lemma ClusterIs(disk: seq<int>, g: Geometry, c: nat)
    requires OnDisk(disk, g, c)
    ensures Cluster(disk, g, c) == disk[At(g, c)..At(g, c) + g.size]
  {
  }

  /** Storing inside one cluster changes that cluster only, and no FAT entry. */
  lemma ClusterStored(disk: seq<int>, g: Geometry, c: nat, bytes: seq<int>)
    requires Sound(g) && OnDisk(disk, g, c) && |bytes| <= g.size
    ensures var disk' := Splice(disk, At(g, c), bytes);
      && g.fatPos + 2 * g.entries <= |disk| && Table(disk', g) == Table(disk, g)
      && Cluster(disk', g, c) == bytes + Cluster(disk, g, c)[|bytes|..]
      && forall d: nat | OnDisk(disk, g, d) && d != c :: Cluster(disk', g, d) == Cluster(disk, g, d)
  {
    hide At, Sound;
    hide Splice, Table, Cluster;
    var disk' := Splice(disk, At(g, c), bytes);
    BehindTables(g, c);
    SameTable(disk, disk', g);
    OwnCluster(disk, At(g, c), g.size, bytes);
    assert Cluster(disk', g, c) == bytes + Cluster(disk, g, c)[|bytes|..] by {
      ClusterIs(disk, g, c);
      ClusterIs(disk', g, c);
    }
    forall d: nat | OnDisk(disk, g, d) && d != c
      ensures Cluster(disk', g, d) == Cluster(disk, g, d)
    {
      OtherCluster(disk, g, c, d, bytes);
    }
  }

  // ----- the volume -------------------------------------------------------------------

  /** A cluster of the volume: FAT 1 has an entry for it and its bytes are on the disk. */
  predicate InVolume(disk: seq<int>, g: Geometry, c: nat) {
    c < g.entries && OnDisk(disk, g, c)
  }

  /** The clusters of the volume that can be handed out. */
  ghost function FreeSet(disk: seq<int>, g: Geometry): (s: set<nat>)
    requires g.fatPos + 2 * g.entries <= |disk|
    ensures forall c: nat :: c in s <==> 3 <= c && InVolume(disk, g, c) && Table(disk, g)[c] == 0
  {
    set c: nat | 3 <= c < g.entries && InVolume(disk, g, c) && Table(disk, g)[c] == 0
  }

  /** The clusters of a volume are consecutive. */
  lemma VolumePrefix(disk: seq<int>, g: Geometry, c: nat, d: nat)
    requires InVolume(disk, g, d) && 2 <= c <= d
    ensures InVolume(disk, g, c)
  {
    if c < d { ClustersApart(g, c, d); }
  }

  /** `c` is what the scan of `fat16_get_next_free_cluster` finds: the lowest zero entry from 3 up to
      `MAX`, however many entries FAT 1 has; 0 when there is none. */
  ghost predicate ScanFinds(disk: seq<int>, g: Geometry, c: nat)
    requires g.fatPos + 2 * MAX <= |disk|
  {
    && (c == 0 || (3 <= c < MAX && Entry(disk, g, c) == 0))
    && forall d: nat | 3 <= d < (if c == 0 then MAX else c) :: Entry(disk, g, d) != 0
  }

  /** The scan finds a cluster of the volume exactly when one is free there. */
  lemma ScanMeaning(disk: seq<int>, g: Geometry, c: nat)
    requires Sound(g) && g.fatPos + 2 * MAX <= |disk| && ScanFinds(disk, g, c)
    ensures InVolume(disk, g, c) <==> FreeSet(disk, g) != {}
    ensures InVolume(disk, g, c) ==> c in FreeSet(disk, g) && forall d | d in FreeSet(disk, g) :: c <= d
  {
    hide At;
    forall d | d in FreeSet(disk, g)
      ensures InVolume(disk, g, c) && c <= d
    {
      assert Table(disk, g)[d] == Entry(disk, g, d);
      VolumePrefix(disk, g, c, d);
    }
  }

  /** The layout that `mkfs.fat` gives the repository's own image, 1048576 sectors long. */
  function OwnBpb(): Bpb {
    Bpb(512, 16, 16, 2, 512, 256)
  }

  const OWN_SIZE: nat := 1048576 * 512
  const OWN_CLUSTERS: nat := 65375

  /** That image with every cluster of the volume in use. */
  function FullImage(): (disk: seq<int>)
    ensures |disk| == OWN_SIZE
    ensures forall i: nat | i < OWN_SIZE :: disk[i] == if i < 0x102000 + 2 * OWN_CLUSTERS then 0xFF else 0
  {
    seq(OWN_SIZE, i => if i < 0x102000 + 2 * OWN_CLUSTERS then 0xFF else 0)
  }

  /** On the full image the scan finds a cluster all the same, just behind the end of the disk. */
  lemma ScanLeavesVolume()
    ensures var g := GeometryOf(OwnBpb());
      && WellFormed(OwnBpb()) && g == Geometry(0x102000, MAX, 0x146000, 8192)
      && ScanFinds(FullImage(), g, OWN_CLUSTERS) && !OnDisk(FullImage(), g, OWN_CLUSTERS)
      && FreeSet(FullImage(), g) == {}
  {
    var disk, g := FullImage(), GeometryOf(OwnBpb());
    assert g == Geometry(0x102000, MAX, 0x146000, 8192);
    hide GeometryOf;
    assert ScanFinds(disk, g, OWN_CLUSTERS);
    ScanMeaning(disk, g, OWN_CLUSTERS);
  }
}
