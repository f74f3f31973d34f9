/** The FAT16 driver of `fat16.c` on a sector device: chain walks, table updates, and the data
    loops of `fat16_write` and `fat16_read`. */
module Fat16 {
  import opened SectorStream
  import opened FatVolume
  import C = FatChains
  import opened FatChains
  import opened Words

  const EINVAL: int := 22
  const ENOSPC: int := 28

  /** The bytes of the clusters of `s`, in chain order. */
  ghost function Contents(disk: seq<int>, g: Geometry, s: seq<nat>): (r: seq<int>)
    requires forall c | c in s :: OnDisk(disk, g, c)
    ensures |r| == g.size * |s|
  {
    if s == [] then []
    else
      assert forall c | c in s[..|s| - 1] :: c in s;
      assert s[|s| - 1] in s;
      assert g.size * |s| == g.size * (|s| - 1) + g.size;
      Contents(disk, g, s[..|s| - 1]) + Cluster(disk, g, s[|s| - 1])
  }

  /** Contents depend only on the clusters of the chain. */
  lemma {:induction false} SameContents(disk: seq<int>, disk': seq<int>, g: Geometry, s: seq<nat>)
    requires forall c | c in s ::
      OnDisk(disk, g, c) && OnDisk(disk', g, c) && Cluster(disk', g, c) == Cluster(disk, g, c)
    ensures Contents(disk', g, s) == Contents(disk, g, s)
  {
    if s != [] {
      var p := s[..|s| - 1];
      assert forall c | c in p :: c in s;
      SameContents(disk, disk', g, p);
      assert s[|s| - 1] in s;
    }
  }

  lemma {:induction false} ContentsPrefix(disk: seq<int>, g: Geometry, s: seq<nat>, k: nat)
    requires (forall c | c in s :: OnDisk(disk, g, c)) && k <= |s|
    ensures (forall c | c in s[..k] :: OnDisk(disk, g, c)) && Contents(disk, g, s[..k]) <= Contents(disk, g, s)
    decreases |s| - k
  {
    assert forall c | c in s[..k] :: c in s;
    if k == |s| {
      assert s[..k] == s;
    } else {
      ContentsPrefix(disk, g, s, k + 1);
      assert s[..k + 1][..k] == s[..k];
      assert forall c | c in s[..k + 1] :: c in s;
    }
  }

  /** `n` clusters from `c` on. */
  function Consecutive(c: nat, n: nat): (s: seq<nat>)
    ensures |s| == n && forall i | 0 <= i < n :: s[i] == c + i
  {
    seq(n, i => c + i)
  }

  /** A file in consecutive clusters is one stretch of the disk. */
  lemma {:induction false} OneStretch(disk: seq<int>, g: Geometry, c: nat, n: nat)
    requires 2 <= c && At(g, c) + g.size * n <= |disk|
    ensures AllOnDisk(disk, g, Consecutive(c, n))
    ensures Contents(disk, g, Consecutive(c, n)) == disk[At(g, c)..At(g, c) + g.size * n]
  {
    var s := Consecutive(c, n);
    if n > 0 {
      assert g.size * n == g.size * (n - 1) + g.size && At(g, c + n - 1) == At(g, c) + g.size * (n - 1);
      OneStretch(disk, g, c, n - 1);
      assert s[..n - 1] == Consecutive(c, n - 1);
      assert forall x | x in s :: x in s[..n - 1] || x == c + n - 1;
    }
  }

  // ----- progress of a write ------------------------------------------------------------

  ghost predicate AllOnDisk(disk: seq<int>, g: Geometry, t: seq<nat>) {
    forall c | c in t :: OnDisk(disk, g, c)
  }

  ghost predicate SameClusters(disk0: seq<int>, disk: seq<int>, g: Geometry) {
    |disk| == |disk0| && forall c: nat | OnDisk(disk, g, c) :: Cluster(disk, g, c) == Cluster(disk0, g, c)
  }

  lemma SameDisk(disk: seq<int>, g: Geometry)
    ensures SameClusters(disk, disk, g)
  {
  }

  lemma EntryDone(disk: seq<int>, g: Geometry, c: nat, v: nat)
    requires Sound(g) && c < g.entries && g.fatPos + 2 * g.entries <= |disk| && v < 0x1_0000
    ensures var disk' := Splice(disk, g.fatPos + 2 * c, [v % 256, v / 256]);
      Table(disk', g) == Table(disk, g)[c := v] && SameClusters(disk, disk', g)
  {
    hide Splice, Cluster, At, Table, Sound;
    EntryStored(disk, g, c, v);
  }

  /** Clusters outside `p` hold what they held. */
  ghost predicate SameOutside(disk0: seq<int>, disk: seq<int>, g: Geometry, p: seq<nat>)
    requires |disk| == |disk0|
  {
    forall c: nat | OnDisk(disk, g, c) && c !in p :: Cluster(disk, g, c) == Cluster(disk0, g, c)
  }

  /** The first `k` clusters of `t` hold the start of `buf`; no other cluster has changed. */
  ghost predicate Progress(disk0: seq<int>, disk: seq<int>, g: Geometry, t: seq<nat>, buf: seq<int>, k: nat) {
    && |disk| == |disk0| && k <= |t| && AllOnDisk(disk, g, t[..k])
    && Contents(disk, g, t[..k]) <= buf
    && SameOutside(disk0, disk, g, t[..k])
  }

  /** All of `buf` is written, ending inside cluster `k`; the rest of that cluster and all others are as before. */
  ghost predicate Finished(disk0: seq<int>, disk: seq<int>, g: Geometry, t: seq<nat>, buf: seq<int>, k: nat) {
    && |disk| == |disk0| && k < |t| && AllOnDisk(disk, g, t[..k + 1])
    && g.size * k < |buf| <= g.size * (k + 1)
    && buf <= Contents(disk, g, t[..k + 1])
    && SameOutside(disk0, disk, g, t[..k + 1])
    && OnDisk(disk, g, t[k])
    && Cluster(disk, g, t[k])[|buf| - g.size * k..] == Cluster(disk0, g, t[k])[|buf| - g.size * k..]
  }

  /** A chain cluster not yet reached is overwritten from its start. */
  lemma StoreStep(disk0: seq<int>, disk1: seq<int>, g: Geometry, t: seq<nat>, buf: seq<int>, k: nat, bytes: seq<int>)
    requires Sound(g) && Progress(disk0, disk1, g, t, buf, k) && k < |t| && t[k] !in t[..k]
    requires OnDisk(disk1, g, t[k]) && |bytes| <= g.size
    ensures var disk2 := Splice(disk1, At(g, t[k]), bytes);
      && AllOnDisk(disk2, g, t[..k + 1])
      && Contents(disk2, g, t[..k + 1]) == Contents(disk1, g, t[..k]) + bytes + Cluster(disk0, g, t[k])[|bytes|..]
      && SameOutside(disk0, disk2, g, t[..k + 1])
  {
    var disk2 := Splice(disk1, At(g, t[k]), bytes);
    ClusterStored(disk1, g, t[k], bytes);
    var p := t[..k + 1];
    assert p[..k] == t[..k] && p[k] == t[k];
    assert forall c | c in p :: c in t[..k] || c == t[k];
    SameContents(disk1, disk2, g, t[..k]);
    forall c: nat | OnDisk(disk2, g, c) && c !in p
      ensures Cluster(disk2, g, c) == Cluster(disk0, g, c)
    {
      assert t[k] in p;
      assert forall x | x in t[..k] :: x in p;
    }
  }

  lemma FullStep(disk0: seq<int>, disk1: seq<int>, g: Geometry, t: seq<nat>, buf: seq<int>, k: nat)
    requires Sound(g) && Progress(disk0, disk1, g, t, buf, k) && k < |t| && t[k] !in t[..k] && OnDisk(disk1, g, t[k])
    requires g.size * k + g.size <= |buf|
    ensures Progress(disk0, Splice(disk1, At(g, t[k]), buf[g.size * k..g.size * k + g.size]), g, t, buf, k + 1)
  {
    var bytes := buf[g.size * k..g.size * k + g.size];
    StoreStep(disk0, disk1, g, t, buf, k, bytes);
    assert Contents(disk1, g, t[..k]) + bytes <= buf;
  }

  lemma LastStep(disk0: seq<int>, disk1: seq<int>, g: Geometry, t: seq<nat>, buf: seq<int>, k: nat)
    requires Sound(g) && Progress(disk0, disk1, g, t, buf, k) && k < |t| && t[k] !in t[..k] && OnDisk(disk1, g, t[k])
    requires g.size * k < |buf| <= g.size * k + g.size
    ensures Finished(disk0, Splice(disk1, At(g, t[k]), buf[g.size * k..]), g, t, buf, k)
  {
    var bytes := buf[g.size * k..];
    StoreStep(disk0, disk1, g, t, buf, k, bytes);
    ClusterStored(disk1, g, t[k], bytes);
    assert g.size * (k + 1) == g.size * k + g.size;
    assert buf == Contents(disk1, g, t[..k]) + bytes;
  }

  lemma ProgressCarries(disk0: seq<int>, disk1: seq<int>, disk2: seq<int>, g: Geometry, t: seq<nat>,
                        t': seq<nat>, buf: seq<int>, k: nat)
    requires Progress(disk0, disk1, g, t, buf, k) && t <= t' && |disk2| == |disk1|
    requires SameClusters(disk1, disk2, g)
    ensures Progress(disk0, disk2, g, t', buf, k)
  {
    assert t'[..k] == t[..k];
    SameContents(disk1, disk2, g, t[..k]);
  }

  /** The clusters a file of `n` bytes needs. */
  function Required(n: nat, size: nat): (q: nat)
    requires 0 < size && 0 < n
    ensures 1 <= q && size * (q - 1) < n <= size * q
  {
    var q, r := (n + size - 1) / size, (n + size - 1) % size;
    assert n + size - 1 == size * q + r;
    assert size * (q - 1) == size * q - size;
    q
  }

  lemma RequiredIs(n: nat, size: nat, k: nat)
    requires 0 < size && size * k < n <= size * k + size
    ensures Required(n, size) == k + 1
  {
    var q := Required(n, size);
    if q < k + 1 { MulStep(size, q - 1, k); } else if k + 1 < q { MulStep(size, k, q - 1); }
  }

  /** The clusters that writing `n` bytes to a chain of `existing` clusters adds. */
  ghost function Additional(n: nat, existing: nat, g: Geometry): nat
    requires 0 < n
  {
    if 0 < g.size && existing < Required(n, g.size) then Required(n, g.size) - existing else 0
  }

  /** What keeps the scan for new clusters in the volume: enough free clusters there, or no free entry outside. */
  ghost predicate Room(disk: seq<int>, g: Geometry, n: nat, existing: nat)
    requires g.fatPos + 2 * g.entries <= |disk|
  {
    n != 0 && Additional(n, existing, g) != 0 ==> Additional(n, existing, g) <= |FreeSet(disk, g)| || Settled(disk, g)
  }

  /** The scans of a write read entries of FAT 1 only. */
  ghost predicate Scans(disk: seq<int>, g: Geometry, n: nat, existing: nat)
    requires g.fatPos + 2 * g.entries <= |disk|
  {
    n != 0 && Additional(n, existing, g) != 0 ==>
      g.fatPos + 2 * MAX <= |disk| && (g.entries == MAX || Additional(n, existing, g) <= |FreeSet(disk, g)|)
  }

  lemma ScansLeft(disk0: seq<int>, disk: seq<int>, g: Geometry, n: nat, existing: nat, now: nat)
    requires g.fatPos + 2 * g.entries <= |disk0| == |disk| && 0 < g.size && 0 < n && Scans(disk0, g, n, existing)
    requires |FreeSet(disk, g)| + now == |FreeSet(disk0, g)| + existing && existing <= now
    ensures now < Required(n, g.size) ==> Scannable(disk, g)
  {
    hide FreeSet, Required;
  }

  /** The state between two passes of the loop: `written` bytes are on the disk, and cluster `k` of `t` is next,
      or, at the end, holds the last byte. */
  ghost predicate Writing(disk0: seq<int>, disk: seq<int>, g: Geometry, s: seq<nat>, t: seq<nat>, buf: seq<int>,
                          written: nat, k: nat) {
    && g.fatPos + 2 * g.entries <= |disk0| == |disk| && buf != [] && 0 < g.size
    && Extends(Table(disk0, g), s, Table(disk, g), t) && AllOnDisk(disk, g, t) && k < |t| && |s| <= |t|
    && (|s| < |t| ==> |t| == k + 1)
    && |FreeSet(disk, g)| + |t| == |FreeSet(disk0, g)| + |s| && (Settled(disk0, g) <==> Settled(disk, g))
    && (written < |buf| ==> written == g.size * k && Progress(disk0, disk, g, t, buf, k))
    && (written == |buf| ==> Required(|buf|, g.size) == k + 1 && Finished(disk0, disk, g, t, buf, k))
  }

  /** The state in which the loop gives up. */
  ghost predicate NoSpace(disk0: seq<int>, disk: seq<int>, g: Geometry, s: seq<nat>, t: seq<nat>, buf: seq<int>) {
    && g.fatPos + 2 * g.entries <= |disk0| == |disk| && buf != []
    && Extends(Table(disk0, g), s, Table(disk, g), t) && AllOnDisk(disk, g, t)
    && FreeSet(disk, g) == {} && |t| < |s| + Additional(|buf|, |s|, g)
    && |FreeSet(disk0, g)| < Additional(|buf|, |s|, g)
    && Settled(disk0, g) && Progress(disk0, disk, g, t, buf, |t|)
  }

  /** The state in which the loop has appended a cluster that is not on the disk: all the others are written. */
  ghost predicate Strayed(disk0: seq<int>, disk: seq<int>, g: Geometry, s: seq<nat>, t: seq<nat>, buf: seq<int>) {
    && g.fatPos + 2 * g.entries <= |disk0| == |disk| && buf != [] && t != []
    && Extends(Table(disk0, g), s, Table(disk, g), t) && !OnDisk(disk, g, t[|t| - 1])
    && AllOnDisk(disk, g, t[..|t| - 1])
    && |FreeSet(disk0, g)| < Additional(|buf|, |s|, g) && !Settled(disk0, g)
    && Progress(disk0, disk, g, t, buf, |t| - 1)
  }

  lemma NoSpaceMeans(disk0: seq<int>, disk: seq<int>, g: Geometry, s: seq<nat>, t: seq<nat>, buf: seq<int>)
    requires NoSpace(disk0, disk, g, s, t, buf)
    ensures g.fatPos + 2 * g.entries <= |disk0| == |disk| && buf != [] && Room(disk0, g, |buf|, |s|)
    ensures Extends(Table(disk0, g), s, Table(disk, g), t) && AllOnDisk(disk, g, t)
    ensures FreeSet(disk, g) == {} && |t| < |s| + Additional(|buf|, |s|, g)
    ensures |FreeSet(disk0, g)| < Additional(|buf|, |s|, g)
    ensures Progress(disk0, disk, g, t, buf, |t|)
  {
  }

  lemma StrayedMeans(disk0: seq<int>, disk: seq<int>, g: Geometry, s: seq<nat>, t: seq<nat>, buf: seq<int>)
    requires Strayed(disk0, disk, g, s, t, buf)
    ensures g.fatPos + 2 * g.entries <= |disk0| == |disk| && buf != [] && !Room(disk0, g, |buf|, |s|)
  {
    hide Extends, Table, OnDisk, AllOnDisk, FreeSet, Settled, Progress, Additional;
  }

  lemma WriteDone(disk0: seq<int>, disk: seq<int>, g: Geometry, s: seq<nat>, t: seq<nat>, buf: seq<int>, k: nat)
    requires Writing(disk0, disk, g, s, t, buf, |buf|, k)
    ensures |t| == |s| + Additional(|buf|, |s|, g) && Additional(|buf|, |s|, g) <= |FreeSet(disk0, g)|
    ensures g.fatPos + 2 * g.entries <= |disk0| == |disk| && Room(disk0, g, |buf|, |s|)
    ensures Finished(disk0, disk, g, t, buf, k)
  {
    hide FreeSet, Required, Finished, Progress, Extends, AllOnDisk, Settled;
  }

  lemma WriteFailed(disk0: seq<int>, disk: seq<int>, g: Geometry, n: nat, existing: nat, now: nat)
    requires g.fatPos + 2 * g.entries <= |disk0| == |disk| && 0 < g.size && 0 < n
    requires |FreeSet(disk, g)| + now == |FreeSet(disk0, g)| + existing && existing <= now < Required(n, g.size)
    requires FreeSet(disk, g) == {}
    ensures now < existing + Additional(n, existing, g) && |FreeSet(disk0, g)| < Additional(n, existing, g)
  {
    hide FreeSet, Required;
  }

  lemma AdditionalNeeded(n: nat, existing: nat, now: nat, g: Geometry)
    requires 0 < n && 0 < g.size && existing <= now
    ensures now < Required(n, g.size) ==> Additional(n, existing, g) != 0
  {
    hide Required;
  }

  lemma ChainBound(fat: Fat, fat0: Fat, s: seq<nat>, t: seq<nat>, k: nat)
    requires Extends(fat0, s, fat, t) && k < |t|
    ensures 2 <= t[k]
  {
  }

  lemma SameOnDisk(disk: seq<int>, disk': seq<int>, g: Geometry, t: seq<nat>)
    requires AllOnDisk(disk, g, t) && |disk| == |disk'|
    ensures AllOnDisk(disk', g, t)
  {
  }

  lemma ChainPositive(fat: Fat, t: seq<nat>, k: nat)
    requires IsChain(fat, t) && k < |t|
    ensures t[k] != 0
  {
  }

  lemma SameFree(disk: seq<int>, disk': seq<int>, g: Geometry)
    requires g.fatPos + 2 * g.entries <= |disk| == |disk'| && Table(disk', g) == Table(disk, g)
    ensures FreeSet(disk', g) == FreeSet(disk, g) && (Settled(disk, g) <==> Settled(disk', g))
  {
    hide Table, At;
  }

  class Driver {
    const dev: Device
    const bpb: Bpb

    constructor (dev: Device, bpb: Bpb)
      ensures this.dev == dev && this.bpb == bpb
    {
      this.dev, this.bpb := dev, bpb;
    }

    ghost function G(): Geometry
      requires WellFormed(bpb)
    {
      GeometryOf(bpb)
    }

    /** A volume on the device: FAT 1 is there, and positions on the disk fit 32 bits. */
    ghost predicate Mounted()
      reads dev
    {
      dev.Valid() && WellFormed(bpb) && G().fatPos + 2 * G().entries <= |dev.disk| <= 0x1_0000_0000
    }

    ghost function View(): Fat
      requires Mounted()
      reads dev
    {
      Table(dev.disk, G())
    }

    /** `fat16_get_next_cluster` */
    method GetNextCluster(stream: Stream, c: nat) returns (next: int)
      requires Mounted() && stream.dev == dev && G().fatPos + 2 * c + 2 <= |dev.disk|
      modifies stream`pos, dev`buffer
      ensures Mounted() && next == Entry(dev.disk, G(), c)
      ensures var p := PARTITION + bpb.rsvdSec * bpb.bytsPerSec + 2 * c; next == dev.disk[p] + 0x100 * dev.disk[p + 1]
    {
      var offset := PARTITION + bpb.rsvdSec * bpb.bytsPerSec + c * 2;
      GeometrySound(bpb);
      EntryInSector(G(), c);
      stream.Seek(offset);
      var entry := stream.Read(2);
      next := entry[0] + 256 * entry[1];
    }

    /** `fat16_create_fat_entry` */
    method CreateFatEntry(c: nat, value: nat) returns (ok: bool)
      requires Mounted() && value < 0x1_0000
      requires 2 <= c < MAX ==> G().fatPos + 2 * c + 2 <= |dev.disk|
      modifies dev
      ensures Mounted() && ok == (2 <= c < MAX)
      ensures ok ==> dev.disk == Splice(old(dev.disk), G().fatPos + 2 * c, [value % 256, value / 256])
      ensures !ok ==> dev.disk == old(dev.disk)
      ensures ok && c < G().entries ==> View() == old(View())[c := value]
      ensures c < G().entries ==> SameClusters(old(dev.disk), dev.disk, G())
    {
      hide SameClusters, Table, Splice;
      SameDisk(dev.disk, G());
      if c < 2 || c >= MAX { return false; }
      var offset := PARTITION + FatTableOffset(bpb) + c * 2;
      assert offset == G().fatPos + 2 * c;
      hide GeometryOf, FatTableOffset, WellFormed;
      GeometrySound(bpb);
      EntryInSector(G(), c);
      if c < G().entries { EntryDone(dev.disk, G(), c, value); }
      hide Sound;
      var stream := new Stream(dev);
      stream.Seek(offset);
      stream.Write([value % 256, value / 256]);
      return true;
    }

    /** `fat16_get_next_free_cluster`: the lowest zero entry from 3 on, or 0; a cluster of the volume exactly when one
        is free there. */
    method GetNextFreeCluster(stream: Stream) returns (c: nat)
      requires Mounted() && stream.dev == dev && G().fatPos + 2 * MAX <= |dev.disk|
      modifies stream`pos, dev`buffer
      ensures Mounted() && ScanFinds(dev.disk, G(), c)
      ensures InVolume(dev.disk, G(), c) <==> FreeSet(dev.disk, G()) != {}
    {
      hide WellFormed, Sound, GeometryOf, FreeSet, InVolume;
      GeometrySound(bpb);
      c := 3;
      while c < MAX
        invariant 3 <= c <= MAX && Mounted()
        invariant forall d: nat | 3 <= d < c :: Entry(dev.disk, G(), d) != 0
      {
        var value := GetNextCluster(stream, c);
        if value == 0 {
          ScanMeaning(dev.disk, G(), c);
          return;
        }
        c := c + 1;
      }
      c := 0;
      ScanMeaning(dev.disk, G(), c);
    }

    /** `fat16_get_cluster_chain_length` */
    method GetChainLength(stream: Stream, start: nat, ghost s: seq<nat>) returns (n: nat)
      requires Mounted() && stream.dev == dev && IsChain(View(), s) && s[0] == start
      modifies stream`pos, dev`buffer
      ensures Mounted() && n == |s|
    {
      hide WellFormed, Sound, GeometryOf;
      n := 1;
      ghost var fat := View();
      assert Linked(fat, s, 0);
      var next := GetNextCluster(stream, start);
      while next < END_OF_CHAIN
        invariant Mounted() && 1 <= n <= |s| && Linked(fat, s, n - 1) && next == fat[s[n - 1]]
        decreases |s| - n
      {
        assert Linked(fat, s, n);
        n := n + 1;
        next := GetNextCluster(stream, next);
      }
    }

    /** The two table stores that append `added` behind `curr`. */
    method Link(curr: nat, added: nat)
      requires Mounted() && 2 <= curr < G().entries && 2 <= added < G().entries
      modifies dev
      ensures Mounted() && |dev.disk| == |old(dev.disk)| && View() == old(View())[curr := added][added := END_OF_CHAIN]
      ensures SameClusters(old(dev.disk), dev.disk, G())
    {
      hide WellFormed, GeometryOf, Cluster, At;
      GeometrySound(bpb);
      var linked := CreateFatEntry(curr, added);
      linked := CreateFatEntry(added, END_OF_CHAIN);
    }

    /** The end of a chain in the loop of `fat16_write`: the cluster of the lowest free entry is appended, 0 when
        there is none. It lies on the disk exactly when a cluster of the volume is free. */
    method Append(stream: Stream, curr: nat, ghost fat0: Fat, ghost s: seq<nat>, ghost t: seq<nat>) returns (added: nat)
      requires Mounted() && stream.dev == dev && Extends(fat0, s, View(), t) && t != [] && t[|t| - 1] == curr
      requires OnDisk(dev.disk, G(), curr) && Scannable(dev.disk, G())
      modifies stream`pos, dev
      ensures Mounted() && |dev.disk| == |old(dev.disk)| && SameClusters(old(dev.disk), dev.disk, G())
      ensures added == 0 <==> old(FreeSet(dev.disk, G())) == {} && Settled(old(dev.disk), G())
      ensures added == 0 ==> dev.disk == old(dev.disk)
      ensures added != 0 ==> Extends(fat0, s, View(), t + [added])
      ensures added != 0 ==> (OnDisk(dev.disk, G(), added) <==> old(FreeSet(dev.disk, G())) != {})
      ensures added != 0 && OnDisk(dev.disk, G(), added) ==>
        && |FreeSet(dev.disk, G())| == |old(FreeSet(dev.disk, G()))| - 1
        && (Settled(old(dev.disk), G()) <==> Settled(dev.disk, G()))
    {
      GeometrySound(bpb);
      ghost var disk, fat := dev.disk, View();
      ExtendsFacts(fat0, s, fat, t);
      assert Linked(fat, t, |t| - 1);
      hide WellFormed, Sound, GeometryOf, Extends, IsChain, Settled, ScanFinds, At, Entry, SameClusters;
      added := GetNextFreeCluster(stream);
      assert dev.disk == disk;
      ScanOutcome(disk, G(), added);
      if added == 0 { return; }
      C.Append(fat0, s, fat, t, added);
      Link(curr, added);
      if OnDisk(disk, G(), added) { FreeTaken(disk, dev.disk, G(), curr, added); }
    }

    /** The FAT part of the loop of `fat16_write`: the cluster after `curr`, appended to the chain when `curr` is its
        end; 0 stands for the -ENOSPC exits. */
    method Advance(stream: Stream, curr: nat, additional: nat, ghost fat0: Fat, ghost s: seq<nat>,
                   ghost t: seq<nat>, ghost k: nat)
      returns (next: nat, ghost t': seq<nat>)
      requires Mounted() && stream.dev == dev && Extends(fat0, s, View(), t) && k < |t| && t[k] == curr
      requires AllOnDisk(dev.disk, G(), t)
      requires k + 1 == |t| && additional != 0 ==> Scannable(dev.disk, G())
      modifies stream`pos, dev
      ensures Mounted() && |dev.disk| == |old(dev.disk)| && Extends(fat0, s, View(), t')
      ensures SameClusters(old(dev.disk), dev.disk, G())
      ensures next == 0 <==>
        k + 1 == |t| && (additional == 0 || (old(FreeSet(dev.disk, G())) == {} && Settled(old(dev.disk), G())))
      ensures next == 0 ==> t' == t && dev.disk == old(dev.disk)
      ensures next != 0 ==>
        && t <= t' && k + 1 < |t'| && t'[k + 1] == next && |t'| == (if k + 1 == |t| then |t| + 1 else |t|)
      ensures next != 0 ==> (OnDisk(dev.disk, G(), next) <==> k + 1 < |t| || old(FreeSet(dev.disk, G())) != {})
      ensures next == 0 || OnDisk(dev.disk, G(), next) ==>
        && AllOnDisk(dev.disk, G(), t') && (Settled(old(dev.disk), G()) <==> Settled(dev.disk, G()))
        && |FreeSet(dev.disk, G())| + |t'| == |old(FreeSet(dev.disk, G()))| + |t|
    {
      hide WellFormed, Sound, GeometryOf, Extends, FreeSet, Settled, IsChain, At, Scannable, Cluster, SameClusters;
      ExtendsFacts(fat0, s, View(), t);
      ChainStep(View(), t, k);
      SameDisk(dev.disk, G());
      assert t[k] in t && (k + 1 < |t| ==> t[k + 1] in t);
      t' := t;
      var n := GetNextCluster(stream, curr);
      if n >= END_OF_CHAIN {
        if additional == 0 { return 0, t; }
        next := Append(stream, curr, fat0, s, t);
        if next != 0 { t' := t + [next]; }
      } else {
        next := n;
        ChainPositive(View(), t, k + 1);
      }
    }

    /** The data part of the loop of `fat16_write`. */
    method WriteInCluster(stream: Stream, curr: nat, offset: nat, bytes: seq<int>)
      requires Mounted() && stream.dev == dev && OnDisk(dev.disk, G(), curr) && offset == 0 && |bytes| <= G().size
      modifies stream`pos, dev
      ensures dev.Valid() && dev.disk == Splice(old(dev.disk), At(G(), curr), bytes)
    {
      hide WellFormed, GeometryOf, SectorFromCluster, Splice, Table;
      hide Sound, At;
      GeometrySound(bpb);
      ClusterAccess(bpb, curr, |bytes|);
      var sector := SectorFromCluster(bpb, curr);
      var dataPos := PARTITION + sector * bpb.bytsPerSec;
      stream.Seek(dataPos + offset);
      stream.Write(bytes);
    }

    /** One pass of the loop of `fat16_write`: store what fits into cluster `k` of the chain. */
    method WritePass(stream: Stream, curr: nat, buffer: seq<int>, written: nat, size: nat, ghost disk0: seq<int>,
                     ghost t: seq<nat>, ghost k: nat)
      returns (offset: nat)
      requires Mounted() && stream.dev == dev && IsChain(View(), t) && AllOnDisk(dev.disk, G(), t)
      requires k < |t| && curr == t[k] && size == G().size && written == size * k < |buffer|
      requires Progress(disk0, dev.disk, G(), t, buffer, k)
      modifies stream`pos, dev
      ensures Mounted() && View() == old(View()) && AllOnDisk(dev.disk, G(), t) && |dev.disk| == |old(dev.disk)|
      ensures FreeSet(dev.disk, G()) == old(FreeSet(dev.disk, G()))
      ensures (Settled(old(dev.disk), G()) <==> Settled(dev.disk, G()))
      ensures offset == (if |buffer| - written > size then size else |buffer| - written)
      ensures |buffer| - written > size ==> Progress(disk0, dev.disk, G(), t, buffer, k + 1)
      ensures |buffer| - written <= size ==> Finished(disk0, dev.disk, G(), t, buffer, k)
    {
      hide WellFormed, GeometryOf, Progress, Finished, IsChain, FreeSet, Settled, Table, Splice, At, Sound;
      hide OnDisk, AllOnDisk;
      GeometrySound(bpb);
      offset := if |buffer| - written > size then size else |buffer| - written;
      NotBefore(View(), t, k);
      PassDone(disk0, dev.disk, G(), t, buffer, k, offset);
      WriteInCluster(stream, curr, 0, buffer[written..written + offset]);
    }

    /** A cluster that does not lie on the disk: the model of the loop ends where it would be written. */
    method OffDisk(c: nat, size: nat) returns (off: bool)
      requires Mounted() && 2 <= c && size == G().size
      ensures off == !OnDisk(dev.disk, G(), c)
    {
      ClusterAt(bpb, c);
      off := ClusterPos(bpb, c) + size > |dev.disk|;
    }

    /** The loop body of `fat16_write`: one pass, and a step along the chain when the cluster is full and bytes are
        left. `strayed` says that the step led off the disk. */
    method WriteStep(dataStream: Stream, fatStream: Stream, curr: nat, buffer: seq<int>, written: nat, size: nat,
                     additional: nat,
                     ghost disk0: seq<int>, ghost s: seq<nat>, ghost t: seq<nat>, ghost k: nat)
      returns (written': nat, curr': nat, strayed: bool, ghost t': seq<nat>, ghost k': nat)
      requires Mounted() && dataStream.dev == dev && fatStream.dev == dev && size == G().size && 0 < size
      requires Writing(disk0, dev.disk, G(), s, t, buffer, written, k) && written < |buffer| && curr == t[k]
      requires Scans(disk0, G(), |buffer|, |s|) && additional == Additional(|buffer|, |s|, G())
      modifies dataStream`pos, fatStream`pos, dev
      ensures Mounted() && written < written' <= |buffer|
      ensures !strayed && curr' != 0 ==> Writing(disk0, dev.disk, G(), s, t', buffer, written', k') && curr' == t'[k']
      ensures !strayed && curr' == 0 ==> written' < |buffer| && NoSpace(disk0, dev.disk, G(), s, t', buffer)
      ensures strayed ==> Strayed(disk0, dev.disk, G(), s, t', buffer)
    {
      hide WellFormed, GeometryOf, Progress, Finished, Required, IsChain, Table, OnDisk, Extends, AllOnDisk;
      hide FreeSet, Settled;
      hide Scans, Scannable, Additional, SameClusters;
      ghost var g, fat0 := G(), Table(disk0, G());
      ExtendsFacts(fat0, s, View(), t);
      t', k', curr', strayed := t, k, curr, false;
      var offset := WritePass(dataStream, curr, buffer, written, size, disk0, t, k);
      written' := written + offset;
      if offset >= size && written' < |buffer| {
        MoreRequired(|buffer|, size, k);
        ghost var disk1 := dev.disk;
        ScansLeft(disk0, dev.disk, g, |buffer|, |s|, |t|);
        AdditionalNeeded(|buffer|, |s|, |t|, g);
        curr', t' := Advance(fatStream, curr, additional, fat0, s, t, k);
        ProgressCarries(disk0, disk1, dev.disk, g, t, t', buffer, k + 1);
        if curr' == 0 {
          WriteFailed(disk0, disk1, g, |buffer|, |s|, |t|);
        } else {
          ChainBound(View(), fat0, s, t', k + 1);
          strayed := OffDisk(curr', size);
          if strayed {
            WriteFailed(disk0, disk1, g, |buffer|, |s|, |t|);
            SameOnDisk(disk1, dev.disk, g, t);
            assert t'[..|t'| - 1] == t;
          }
        }
        k' := k + 1;
      } else {
        RequiredIs(|buffer|, size, k);
        ChainPositive(View(), t, k);
      }
    }

    /** The data loop of `fat16_write`, with `n_blocks` 1. `s` is the file's chain, `t` its chain afterwards, and the
        last byte lands in cluster `k` of it. It succeeds exactly when the volume has the clusters it needs, and strays
        from the volume exactly when it has not and an entry outside is free. */
    method WriteLoop(start: nat, buffer: seq<int>, ghost s: seq<nat>)
      returns (res: int, strayed: bool, ghost t: seq<nat>, ghost k: nat)
      requires Mounted() && IsChain(View(), s) && AllOnDisk(dev.disk, G(), s) && s[0] == start
      requires Scans(dev.disk, G(), |buffer|, |s|)
      modifies dev
      ensures Mounted() && |dev.disk| == |old(dev.disk)|
      ensures buffer == [] ==> res == -EINVAL && t == s && dev.disk == old(dev.disk)
      ensures strayed <==> !Room(old(dev.disk), G(), |buffer|, |s|)
      ensures strayed ==> Strayed(old(dev.disk), dev.disk, G(), s, t, buffer)
      ensures !strayed ==> Extends(old(View()), s, View(), t) && AllOnDisk(dev.disk, G(), t)
      ensures buffer != [] && !strayed ==>
        res == if Additional(|buffer|, |s|, G()) <= |old(FreeSet(dev.disk, G()))| then |buffer| else -ENOSPC
      ensures buffer != [] && !strayed && res != -ENOSPC ==>
        && Finished(old(dev.disk), dev.disk, G(), t, buffer, k)
        && |t| == |s| + Additional(|buffer|, |s|, G())
      ensures buffer != [] && !strayed && res == -ENOSPC ==>
        && FreeSet(dev.disk, G()) == {}
        && |t| < |s| + Additional(|buffer|, |s|, G())
        && Progress(old(dev.disk), dev.disk, G(), t, buffer, |t|)
    {
      ChainPositive(View(), s, 0);
      ExtendsItself(View(), s);
      GeometrySound(bpb);
      t, k, strayed := s, 0, false;
      ghost var disk0, g := dev.disk, G();
      if |buffer| == 0 { return -EINVAL, false, s, 0; }
      SizePositive(g);
      var size := bpb.secPerClus * bpb.bytsPerSec;
      SizeIs(bpb);
      WriteStart(disk0, g, s, buffer);
      hide WellFormed, GeometryOf, Progress, Finished, Sound, IsChain, Table, OnDisk, Extends, AllOnDisk;
      hide FreeSet, Settled, Room, Scans;
      var dataStream := new Stream(dev);
      var fatStream := new Stream(dev);
      var written, remaining, curr := 0, |buffer|, start;
      var existing := GetChainLength(fatStream, start, s);
      var required := Required(|buffer|, size);
      var additional := if required > existing then required - existing else 0;
      hide Required;
      assert additional == Additional(|buffer|, |s|, g);
      hide Additional, NoSpace, Strayed;
      while remaining != 0
        invariant Mounted() && 0 <= remaining && written + remaining == |buffer|
        invariant Writing(disk0, dev.disk, g, s, t, buffer, written, k) && curr == t[k] && !strayed
        decreases remaining
      {
        hide Writing;
        var written', curr';
        written', curr', strayed, t, k :=
          WriteStep(dataStream, fatStream, curr, buffer, written, size, additional, disk0, s, t, k);
        if strayed {
          StrayedMeans(disk0, dev.disk, g, s, t, buffer);
          return 0, true, t, k;
        }
        if curr' == 0 {
          NoSpaceMeans(disk0, dev.disk, g, s, t, buffer);
          return -ENOSPC, false, t, k;
        }
        remaining := remaining - (written' - written);
        written, curr := written', curr';
      }
      WriteDone(disk0, dev.disk, g, s, t, buffer, k);
      res := written;
    }

    /** The stream accesses of one pass of `fat16_read`: the first `n` bytes of a cluster. */
    method ReadInCluster(stream: Stream, curr: nat, n: nat) returns (r: seq<int>)
      requires Mounted() && stream.dev == dev && OnDisk(dev.disk, G(), curr) && n <= G().size
      modifies stream`pos, dev`buffer
      ensures Mounted() && r == Cluster(dev.disk, G(), curr)[..n]
    {
      hide WellFormed, GeometryOf, SectorFromCluster, Table;
      hide Sound;
      GeometrySound(bpb);
      ClusterAccess(bpb, curr, n);
      var sector := SectorFromCluster(bpb, curr);
      var dataPos := PARTITION + sector * bpb.bytsPerSec;
      stream.Seek(dataPos);
      r := stream.Read(n);
    }

    /** `fat16_read` of `n` bytes from the start of a file whose chain is `s`; `pos'` is the new file position. */
    method Read(start: nat, pos: nat, fileSize: nat, n: nat, ghost s: seq<nat>) returns (r: seq<int>, pos': nat)
      requires Mounted() && IsChain(View(), s) && AllOnDisk(dev.disk, G(), s) && s[0] == start
      requires pos == 0 || fileSize <= pos
      modifies dev`buffer
      ensures Mounted() && pos' == pos + |r|
      ensures fileSize <= pos ==> r == []
      ensures pos < fileSize ==>
        && |r| == (if n < G().size * |s| then n else G().size * |s|) && r <= Contents(dev.disk, G(), s)
    {
      hide WellFormed, GeometryOf, Sound, IsChain, Table, OnDisk, Contents, Cluster;
      GeometrySound(bpb);
      pos', r := pos, [];
      if fileSize <= pos { return; }
      ghost var disk, fat, g := dev.disk, View(), G();
      assert 0 < g.size by { SizePositive(g); }
      var size := bpb.secPerClus * bpb.bytsPerSec;
      assert size == g.size by { SizeIs(bpb); }
      var fatStream := new Stream(dev);
      var dataStream := new Stream(dev);
      var curr: nat := pos / size + start;
      assert curr == start by { ZeroQuotient(size); }
      var remaining := n;
      var readSize := if remaining < size then remaining else size;
      ghost var k := 0;
      ReadStart(disk, fat, g, s);
      while remaining != 0
        invariant Mounted() && 0 <= remaining && |r| + remaining == n && pos' == pos + |r|
        invariant k < |s| && curr == s[k] && readSize == (if remaining < size then remaining else size)
        invariant ReadUpTo(disk, g, s, r, k, remaining == 0)
        decreases remaining
      {
        assert s[k] in s;
        var bytes := ReadInCluster(dataStream, curr, readSize);
        ReadPass(disk, fat, g, s, r, k, readSize, remaining == readSize);
        r := r + bytes;
        pos' := pos' + readSize;
        remaining := remaining - readSize;
        assert k < |s| && curr < |fat| by { ChainStep(fat, s, k); }
        var next := GetNextCluster(fatStream, curr);
        ChainStep(fat, s, k);
        if next >= END_OF_CHAIN {
          return;
        }
        curr := next;
        readSize := if remaining < size then remaining else size;
        k := k + 1;
      }
    }
  }

  lemma ZeroQuotient(d: nat)
    requires 0 < d
    ensures 0 / d == 0
  {
    Split(0, 0, d);
  }

  lemma ChainStep(fat: Fat, s: seq<nat>, k: nat)
    requires IsChain(fat, s) && k < |s|
    ensures s[k] < |fat| && (fat[s[k]] >= END_OF_CHAIN <==> k + 1 == |s|) && (k + 1 < |s| ==> fat[s[k]] == s[k + 1])
  {
    assert Linked(fat, s, k);
  }

  /** `r` is what the clusters before `k` hold, or, when `done`, the requested start of the file. */
  ghost predicate ReadUpTo(disk: seq<int>, g: Geometry, s: seq<nat>, r: seq<int>, k: nat, done: bool) {
    && AllOnDisk(disk, g, s) && k < |s|
    && r <= Contents(disk, g, s)
    && (!done ==> |r| == g.size * k)
  }

  lemma ReadStart(disk: seq<int>, fat: Fat, g: Geometry, s: seq<nat>)
    requires AllOnDisk(disk, g, s) && IsChain(fat, s)
    ensures ReadUpTo(disk, g, s, [], 0, false) && ReadUpTo(disk, g, s, [], 0, true)
  {
  }

  lemma ReadPass(disk: seq<int>, fat: Fat, g: Geometry, s: seq<nat>, r: seq<int>, k: nat, n: nat, done: bool)
    requires ReadUpTo(disk, g, s, r, k, false) && n <= g.size && (!done ==> n == g.size) && OnDisk(disk, g, s[k])
    ensures var r' := r + Cluster(disk, g, s[k])[..n];
      && r' <= Contents(disk, g, s)
      && (!done ==> |r'| == g.size * (k + 1))
      && (k + 1 < |s| ==> ReadUpTo(disk, g, s, r', k + 1, done))
  {
    assert g.size * (k + 1) == g.size * k + g.size;
    ContentsPrefix(disk, g, s, k);
    ContentsPrefix(disk, g, s, k + 1);
    assert s[..k + 1][..k] == s[..k];
    assert r == Contents(disk, g, s[..k]);
  }

  lemma SizePositive(g: Geometry)
    requires Sound(g)
    ensures 0 < g.size
  {
  }

  lemma SizeIs(b: Bpb)
    requires WellFormed(b)
    ensures 0 < b.bytsPerSec && GeometryOf(b).size == b.secPerClus * b.bytsPerSec
  {
  }

  lemma WriteStart(disk: seq<int>, g: Geometry, s: seq<nat>, buf: seq<int>)
    requires g.fatPos + 2 * g.entries <= |disk| && buf != [] && 0 < g.size && s != []
    requires Extends(Table(disk, g), s, Table(disk, g), s) && AllOnDisk(disk, g, s)
    ensures Writing(disk, disk, g, s, s, buf, 0, 0)
  {
    hide FreeSet, Extends, Settled;
    assert s[..0] == [];
  }

  /** What one pass makes of the disk. */
  lemma PassDone(disk0: seq<int>, disk1: seq<int>, g: Geometry, t: seq<nat>, buf: seq<int>, k: nat, n: nat)
    requires Sound(g) && AllOnDisk(disk1, g, t) && k < |t| && t[k] !in t[..k] && Progress(disk0, disk1, g, t, buf, k)
    requires g.size * k < |buf| && n == (if |buf| - g.size * k > g.size then g.size else |buf| - g.size * k)
    ensures OnDisk(disk1, g, t[k]) && g.fatPos + 2 * g.entries <= |disk1|
    ensures var disk2 := Splice(disk1, At(g, t[k]), buf[g.size * k..g.size * k + n]);
      && Table(disk2, g) == Table(disk1, g) && AllOnDisk(disk2, g, t)
      && FreeSet(disk2, g) == FreeSet(disk1, g) && (Settled(disk1, g) <==> Settled(disk2, g))
      && (|buf| - g.size * k > g.size ==> Progress(disk0, disk2, g, t, buf, k + 1))
      && (|buf| - g.size * k <= g.size ==> Finished(disk0, disk2, g, t, buf, k))
  {
    hide FreeSet, Settled, Table, Progress, Finished, Splice, Sound;
    assert t[k] in t;
    var bytes := buf[g.size * k..g.size * k + n];
    ClusterStored(disk1, g, t[k], bytes);
    var disk2 := Splice(disk1, At(g, t[k]), bytes);
    SameFree(disk1, disk2, g);
    if |buf| - g.size * k > g.size {
      FullStep(disk0, disk1, g, t, buf, k);
    } else {
      assert bytes == buf[g.size * k..];
      LastStep(disk0, disk1, g, t, buf, k);
    }
  }

  lemma MoreRequired(n: nat, size: nat, k: nat)
    requires 0 < size && size * k + size < n
    ensures k + 1 < Required(n, size) && size * (k + 1) == size * k + size
  {
    var q := Required(n, size);
    assert size * (k + 1) == size * k + size;
    if q <= k { MulStep(size, q, k + 1); }
  }

  lemma NotBefore(fat: Fat, t: seq<nat>, k: nat)
    requires IsChain(fat, t) && k < |t|
    ensures t[k] !in t[..k]
  {
  }

  lemma AlignedAt(g: Geometry, c: nat)
    requires g.dataPos % SECTOR == 0 && g.size % SECTOR == 0 && 2 <= c
    ensures At(g, c) % SECTOR == 0
  {
    Multiple(c - 2, g.size);
    assert g.size * (c - 2) == (c - 2) * g.size;
    BothAligned(g.dataPos, (c - 2) * g.size);
  }

  lemma BothAligned(x: nat, y: nat)
    requires x % SECTOR == 0 && y % SECTOR == 0
    ensures (x + y) % SECTOR == 0
  {
  }

  lemma ClusterAccess(b: Bpb, c: nat, n: nat)
    requires WellFormed(b) && Sound(GeometryOf(b)) && 2 <= c
    ensures 0 < b.bytsPerSec && ClusterPos(b, c) == At(GeometryOf(b), c) && Access(ClusterPos(b, c), n)
  {
    hide ClusterPos, At, GeometryOf;
    ClusterAt(b, c);
    AlignedAt(GeometryOf(b), c);
  }

  lemma EntryInSector(g: Geometry, c: nat)
    requires Sound(g)
    ensures Access(g.fatPos + 2 * c, 2)
  {
    var q := g.fatPos / SECTOR;
    assert g.fatPos + 2 * c == 2 * (c % 256) + SECTOR * (q + c / 256);
    hide Sound;
    Split(2 * (c % 256), q + c / 256, SECTOR);
  }

  // ----- what a write means for files -------------------------------------------------

  /** Whether or not the space sufficed, every other file keeps its chain and its bytes, apart from the written one. */
  lemma OtherFile(fat0: Fat, s: seq<nat>, fat: Fat, t: seq<nat>, disk0: seq<int>, disk: seq<int>, g: Geometry,
                  p: nat, u: seq<nat>)
    requires Extends(fat0, s, fat, t) && |disk| == |disk0| && p <= |t| && SameOutside(disk0, disk, g, t[..p])
    requires IsChain(fat0, u) && Disjoint(s, u) && AllOnDisk(disk0, g, u)
    ensures IsChain(fat, u) && Disjoint(t, u) && AllOnDisk(disk, g, u)
    ensures Contents(disk, g, u) == Contents(disk0, g, u)
  {
    OtherChain(fat0, s, fat, t, u);
    forall c | c in u
      ensures OnDisk(disk, g, c) && Cluster(disk, g, c) == Cluster(disk0, g, c)
    {
      assert c !in t;
      assert c !in t[..p];
    }
    SameContents(disk0, disk, g, u);
  }

  lemma WrittenContents(disk0: seq<int>, disk: seq<int>, g: Geometry, t: seq<nat>, buf: seq<int>, k: nat)
    requires Finished(disk0, disk, g, t, buf, k) && AllOnDisk(disk, g, t)
    ensures buf <= Contents(disk, g, t)
  {
    ContentsPrefix(disk, g, t, k + 1);
  }

  /** Write then read: a write that does not shrink its file succeeds exactly when the volume has room, and what it
      wrote is what a read of as many bytes returns. */
  method WriteThenRead(d: Driver, start: nat, buffer: seq<int>, fileSize: nat, ghost s: seq<nat>)
    returns (res: int, strayed: bool, r: seq<int>)
    requires d.Mounted() && IsChain(d.View(), s) && AllOnDisk(d.dev.disk, d.G(), s) && s[0] == start && 0 < fileSize
    requires Scans(d.dev.disk, d.G(), |buffer|, |s|)
    requires buffer != [] && 0 < d.G().size ==> |s| <= Required(|buffer|, d.G().size)
    modifies d.dev
    ensures d.Mounted()
    ensures strayed <==> !Room(old(d.dev.disk), d.G(), |buffer|, |s|)
    ensures !strayed ==>
      (0 <= res <==> buffer != [] && Additional(|buffer|, |s|, d.G()) <= |old(FreeSet(d.dev.disk, d.G()))|)
    ensures !strayed && 0 <= res ==> r == buffer
  {
    hide WellFormed, GeometryOf, Finished, Progress, Required, Table, OnDisk, Contents, FreeSet, Room, Scans, Strayed;
    ghost var t, k;
    var disk0 := d.dev.disk;
    res, strayed, t, k := d.WriteLoop(start, buffer, s);
    r := [];
    if !strayed && 0 <= res {
      WrittenContents(disk0, d.dev.disk, d.G(), t, buffer, k);
      var pos;
      r, pos := d.Read(start, 0, fileSize, |buffer|, t);
    }
  }

  // ----- the repository's own image ----------------------------------------------------

  lemma OwnChain()
    ensures var disk, g := FullImage(), Geometry(0x102000, MAX, 0x146000, 8192);
      && IsChain(Table(disk, g), [2]) && AllOnDisk(disk, g, [2]) && Scans(disk, g, 8192, 1)
  {
    var disk, g := FullImage(), Geometry(0x102000, MAX, 0x146000, 8192);
    assert Table(disk, g)[2] == Entry(disk, g, 2) == 0xFFFF;
    assert Linked(Table(disk, g), [2], 0);
    RequiredIs(8192, 8192, 0);
  }

  /** The image on which the scan would leave the volume is a mounted volume all the same; a file of one cluster on it
      can be read, and written as long as it needs no other cluster. */
  method MountOwn() returns (d: Driver)
    ensures d.Mounted() && IsChain(d.View(), [2]) && AllOnDisk(d.dev.disk, d.G(), [2])
    ensures Scans(d.dev.disk, d.G(), 8192, 1)
  {
    hide FullImage, IsChain, AllOnDisk, Scans, Table;
    ScanLeavesVolume();
    OwnChain();
    var dev := new Device(FullImage());
    d := new Driver(dev, OwnBpb());
  }
}
