/** Cluster chains in a FAT16 table, and what appending free clusters to one of them does to all. */
module FatChains {
  import opened FatVolume

  type Fat = seq<int>

  /** `s` is the acyclic chain that starts at `s[0]` and ends with an end-of-chain mark. */
  ghost predicate IsChain(fat: Fat, s: seq<nat>) {
    && |fat| <= MAX && 1 <= |s|
    && (forall i | 0 <= i < |s| :: 2 <= s[i] < |fat|)
    && (forall i, j | 0 <= i < j < |s| :: s[i] != s[j])
    && (forall i: nat {:trigger Linked(fat, s, i)} | i < |s| && s[i] < |fat| :: Linked(fat, s, i))
  }

  ghost predicate Linked(fat: Fat, s: seq<nat>, i: nat)
    requires i < |s| && s[i] < |fat|
  {
    if i + 1 < |s| then fat[s[i]] == s[i + 1] else fat[s[i]] >= END_OF_CHAIN
  }

  ghost predicate Disjoint(s: seq<nat>, u: seq<nat>) {
    forall c | c in s :: c !in u
  }

  /** Chain members are never free. */
  lemma Occupied(fat: Fat, s: seq<nat>, c: nat)
    requires IsChain(fat, s) && c < |fat| && fat[c] == 0
    ensures c !in s
  {
    forall i: nat | i < |s|
      ensures s[i] != c
    {
      assert Linked(fat, s, i);
    }
  }

  /** The chain is determined by the table and its first cluster. */
  lemma {:induction false} SamePrefix(fat: Fat, s: seq<nat>, u: seq<nat>, i: nat)
    requires IsChain(fat, s) && IsChain(fat, u) && s[0] == u[0] && i < |s|
    ensures i < |u| && s[i] == u[i]
  {
    if i > 0 {
      SamePrefix(fat, s, u, i - 1);
      assert Linked(fat, s, i - 1) && Linked(fat, u, i - 1);
    }
  }

  /** `t` is `s` followed by clusters that were free; apart from those and the end of `s` the table is as it was. */
  ghost predicate Extends(fat0: Fat, s: seq<nat>, fat: Fat, t: seq<nat>) {
    && |fat| == |fat0| && IsChain(fat0, s) && IsChain(fat, t) && s <= t
    && (forall i | |s| <= i < |t| :: 3 <= t[i] < |fat0| && fat0[t[i]] == 0)
    && (forall c: nat | c < |fat| && c !in t[|s|..] && (c != s[|s| - 1] || |t| == |s|) :: fat[c] == fat0[c])
  }

  lemma ExtendsItself(fat: Fat, s: seq<nat>)
    requires IsChain(fat, s)
    ensures Extends(fat, s, fat, s)
  {
  }

  lemma ExtendsFacts(fat0: Fat, s: seq<nat>, fat: Fat, t: seq<nat>)
    requires Extends(fat0, s, fat, t)
    ensures IsChain(fat, t) && |s| <= |t| && |fat| == |fat0|
  {
  }

  /** Every entry of FAT 1 that the scan can reach and whose cluster is not on the disk is taken. */
  ghost predicate Settled(disk: seq<int>, g: Geometry)
    requires g.fatPos + 2 * g.entries <= |disk|
  {
    g.entries == MAX && forall c: nat | 3 <= c < MAX && !OnDisk(disk, g, c) :: Table(disk, g)[c] != 0
  }

  /** The scan reads entries of FAT 1 only, as far as it gets. */
  ghost predicate Scannable(disk: seq<int>, g: Geometry)
    requires g.fatPos + 2 * g.entries <= |disk|
  {
    g.fatPos + 2 * MAX <= |disk| && (g.entries == MAX || FreeSet(disk, g) != {})
  }

  /** It finds nothing exactly when no entry is free, and leaves the volume exactly when none is free there. */
  lemma ScanOutcome(disk: seq<int>, g: Geometry, c: nat)
    requires Sound(g) && g.fatPos + 2 * g.entries <= |disk| && Scannable(disk, g) && ScanFinds(disk, g, c)
    ensures c == 0 <==> FreeSet(disk, g) == {} && Settled(disk, g)
    ensures c != 0 ==> 3 <= c < g.entries && Table(disk, g)[c] == 0 && (OnDisk(disk, g, c) <==> FreeSet(disk, g) != {})
    ensures FreeSet(disk, g) != {} ==> c in FreeSet(disk, g) && forall d | d in FreeSet(disk, g) :: c <= d
  {
    hide OnDisk;
    ScanMeaning(disk, g, c);
  }

  /** Linking a free cluster behind a cluster in use takes exactly that one from the free clusters. */
  lemma FreeTaken(disk: seq<int>, disk': seq<int>, g: Geometry, last: nat, added: nat)
    requires g.fatPos + 2 * g.entries <= |disk| == |disk'| && g.entries <= MAX
    requires last < g.entries && OnDisk(disk, g, last) && Table(disk, g)[last] != 0 && added in FreeSet(disk, g)
    requires Table(disk', g) == Table(disk, g)[last := added][added := END_OF_CHAIN]
    ensures FreeSet(disk', g) == FreeSet(disk, g) - {added} && |FreeSet(disk', g)| == |FreeSet(disk, g)| - 1
    ensures Settled(disk, g) <==> Settled(disk', g)
  {
    hide Table, At;
    assert FreeSet(disk', g) == FreeSet(disk, g) - {added};
    forall c: nat | c < g.entries && !OnDisk(disk, g, c)
      ensures !OnDisk(disk', g, c) && Table(disk', g)[c] == Table(disk, g)[c]
    {
    }
    forall c: nat | c < g.entries && !OnDisk(disk', g, c)
      ensures !OnDisk(disk, g, c) && Table(disk', g)[c] == Table(disk, g)[c]
    {
    }
  }

  /** One more free cluster linked behind the end of the chain. */
  lemma Append(fat0: Fat, s: seq<nat>, fat: Fat, t: seq<nat>, added: nat)
    requires Extends(fat0, s, fat, t) && 3 <= added < |fat| && fat[added] == 0
    ensures added !in t
    ensures Extends(fat0, s, fat[t[|t| - 1] := added][added := END_OF_CHAIN], t + [added])
  {
    Occupied(fat, t, added);
    var last := t[|t| - 1];
    var fat', t' := fat[last := added][added := END_OF_CHAIN], t + [added];
    AppendChain(fat, t, added);
    assert fat0[added] == 0 by {
      assert s[|s| - 1] == t[|s| - 1];
    }
    forall c: nat | c < |fat| && c !in t'[|s|..] && c != s[|s| - 1]
      ensures fat'[c] == fat0[c]
    {
      assert t'[|s|..] == t[|s|..] + [added];
      assert |s| < |t| ==> last in t[|s|..] by {
        if |s| < |t| { assert t[|s|..][|t| - 1 - |s|] == last; }
      }
    }
  }

  lemma AppendChain(fat: Fat, t: seq<nat>, added: nat)
    requires IsChain(fat, t) && 3 <= added < |fat| && added !in t
    ensures IsChain(fat[t[|t| - 1] := added][added := END_OF_CHAIN], t + [added])
  {
    var fat', t' := fat[t[|t| - 1] := added][added := END_OF_CHAIN], t + [added];
    forall i: nat | i < |t'| && t'[i] < |fat'|
      ensures Linked(fat', t', i)
    {
      if i < |t| { assert Linked(fat, t, i) && t[i] in t; }
    }
  }

  /** Every other chain survives and stays apart. */
  lemma OtherChain(fat0: Fat, s: seq<nat>, fat: Fat, t: seq<nat>, u: seq<nat>)
    requires Extends(fat0, s, fat, t) && IsChain(fat0, u) && Disjoint(s, u)
    ensures IsChain(fat, u) && Disjoint(t, u)
  {
    forall c | c in t
      ensures c !in u
    {
      var i: nat :| i < |t| && t[i] == c;
      if i < |s| { assert s[i] in s; } else { Occupied(fat0, u, c); }
    }
    forall i: nat | i < |u| && u[i] < |fat|
      ensures Linked(fat, u, i)
    {
      assert Linked(fat0, u, i) && u[i] in u;
      assert s[|s| - 1] in s;
      assert u[i] !in t[|s|..];
    }
  }
}
