/** Chains of clusters in the first sector of the table, and the bytes that the clusters hold. */
module FatChains {
  import opened Machine
  import opened Wrappers
  import opened FatLayout
  import opened FatWalk
  import opened FatVolume

  // ----- chains -----

  /** The clusters from `c` to the end of its chain; None when it leaves the table, breaks off or is too long. */
  function ChainFrom(fat: Sector, c: UInt32, fuel: nat): (r: Option<seq<UInt32>>)
    ensures r.Some? ==> r.value != [] && r.value[0] == c && |r.value| <= fuel
    decreases fuel
  {
    if fuel == 0 || !(2 <= c < FAT_ENTRIES) then None
    else if FatLink(fat, c) >= FIRST_END_MARK then Some([c])
    else
      var rest := ChainFrom(fat, FatLink(fat, c), fuel - 1);
      if rest.None? then None else Some([c] + rest.value)
  }

  predicate Linked(fat: Sector, c: nat) {
    2 <= c < FAT_ENTRIES && FatLink(fat, c) != 0
  }

  lemma {:induction false} ChainsAreLinked(fat: Sector, c: UInt32, fuel: nat)
    requires ChainFrom(fat, c, fuel).Some?
    ensures forall x :: x in ChainFrom(fat, c, fuel).value ==> Linked(fat, x)
    decreases fuel
  {
    if FatLink(fat, c) < FIRST_END_MARK {
      ChainsAreLinked(fat, FatLink(fat, c), fuel - 1);
    }
  }

  /** A chain depends on the links of its own clusters only. */
  lemma {:induction false} ChainsAgree(fat: Sector, other: Sector, c: UInt32, fuel: nat)
    requires ChainFrom(fat, c, fuel).Some?
    requires forall x :: x in ChainFrom(fat, c, fuel).value && x < FAT_ENTRIES ==> FatLink(other, x) == FatLink(fat, x)
    ensures ChainFrom(other, c, fuel) == ChainFrom(fat, c, fuel)
    decreases fuel
  {
    var cs := ChainFrom(fat, c, fuel).value;
    assert c in cs;
    if FatLink(fat, c) < FIRST_END_MARK {
      var rest := ChainFrom(fat, FatLink(fat, c), fuel - 1).value;
      assert forall x :: x in rest ==> x in cs;
      ChainsAgree(fat, other, FatLink(fat, c), fuel - 1);
    }
  }

  /** What follows a cluster of a chain is that cluster's own chain. */
  lemma {:induction false} ChainsHaveTails(fat: Sector, c: UInt32, fuel: nat, i: nat)
    requires ChainFrom(fat, c, fuel).Some? && i < |ChainFrom(fat, c, fuel).value|
    ensures i <= fuel
    ensures var cs := ChainFrom(fat, c, fuel).value; ChainFrom(fat, cs[i], fuel - i) == Some(cs[i..])
    decreases fuel
  {
    var cs := ChainFrom(fat, c, fuel).value;
    if i == 0 {
      assert cs[0..] == cs;
    } else {
      var rest := ChainFrom(fat, FatLink(fat, c), fuel - 1).value;
      assert cs == [c] + rest;
      ChainsHaveTails(fat, FatLink(fat, c), fuel - 1, i - 1);
      assert cs[i] == rest[i - 1] && cs[i..] == rest[i - 1..];
    }
  }

  /** How much fuel there is does not change a chain. */
  lemma {:induction false} MoreFuelSameChain(fat: Sector, c: UInt32, fuel: nat, more: nat)
    requires fuel <= more && ChainFrom(fat, c, fuel).Some?
    ensures ChainFrom(fat, c, more) == ChainFrom(fat, c, fuel)
    decreases fuel
  {
    if FatLink(fat, c) < FIRST_END_MARK {
      MoreFuelSameChain(fat, FatLink(fat, c), fuel - 1, more - 1);
    }
  }

  /** No chain visits a cluster twice. */
  lemma ChainsAreDistinct(fat: Sector, c: UInt32, fuel: nat)
    requires ChainFrom(fat, c, fuel).Some?
    ensures var cs := ChainFrom(fat, c, fuel).value; forall i, j :: 0 <= i < j < |cs| ==> cs[i] != cs[j]
  {
    var cs := ChainFrom(fat, c, fuel).value;
    forall i: nat, j: nat | i < j < |cs| ensures cs[i] != cs[j] {
      ChainsHaveTails(fat, c, fuel, i);
      ChainsHaveTails(fat, c, fuel, j);
      if cs[i] == cs[j] {
        MoreFuelSameChain(fat, cs[i], fuel - j, fuel - i);
        assert false;
      }
    }
  }

  lemma ChainsAreShort(fat: Sector, c: UInt32, fuel: nat)
    requires ChainFrom(fat, c, fuel).Some?
    ensures |ChainFrom(fat, c, fuel).value| <= FAT_ENTRIES
  {
    var cs := ChainFrom(fat, c, fuel).value;
    ChainsAreDistinct(fat, c, fuel);
    ChainsAreLinked(fat, c, fuel);
    DistinctNumbersBelow(cs, FAT_ENTRIES);
  }

  lemma {:induction false} DistinctNumbersBelow(s: seq<nat>, n: nat)
    requires (forall i, j :: 0 <= i < j < |s| ==> s[i] != s[j]) && forall x :: x in s ==> x < n
    ensures |s| <= n
    decreases n
  {
    if s != [] {
      assert s[0] in s;
      if k :| 0 <= k < |s| && s[k] == n - 1 {
        var t := s[..k] + s[k + 1..];
        forall x | x in t ensures x < n - 1 {
          assert x in s && x != n - 1;
        }
        DistinctNumbersBelow(t, n - 1);
      } else {
        forall x | x in s ensures x < n - 1 {
          assert x != n - 1;
        }
        DistinctNumbersBelow(s, n - 1);
      }
    }
  }

  /** The guarded walk of the append path ends on the last cluster of the chain. */
  lemma {:induction false} WalksEndOnTheLast(fat: Sector, beyond: Links, c: UInt32, followed: nat, limit: nat)
    requires followed <= limit && ChainFrom(fat, c, limit - followed + 1).Some?
    ensures var cs := ChainFrom(fat, c, limit - followed + 1).value;
            LastCluster(LinksOf(fat, beyond), c, followed, limit) == Some(cs[|cs| - 1])
    decreases limit - followed
  {
    var link := FatLink(fat, c);
    if link < FIRST_END_MARK {
      var rest := ChainFrom(fat, link, limit - followed);
      assert 2 <= link < FAT_ENTRIES && limit - followed > 0;
      WalksEndOnTheLast(fat, beyond, link, followed + 1, limit);
    }
  }

  // ----- contents -----

  /** `k` sectors in a row. */
  function SectorRun(disk: Disk, lba: nat, k: nat): (b: Bytes)
    ensures |b| == 512 * k
    decreases k
  {
    if k == 0 then [] else SectorAt(disk, lba) + SectorRun(disk, lba + 1, k - 1)
  }

  function ClusterBytes(g: Geometry, disk: Disk, c: UInt32): (b: Bytes)
    ensures |b| == 512 * g.PerCluster()
  {
    SectorRun(disk, g.SectorOf(c), g.PerCluster())
  }

  /** How many bytes `n` clusters hold. */
  function Span(g: Geometry, n: nat): (s: nat)
    ensures s % 512 == 0
  {
    if n == 0 then 0 else Span(g, n - 1) + 512 * g.PerCluster()
  }

  /** The bytes of the clusters, one cluster after the other. */
  function Joined(g: Geometry, disk: Disk, cs: seq<UInt32>): (b: Bytes)
    ensures |b| == Span(g, |cs|)
  {
    if cs == [] then [] else Joined(g, disk, cs[..|cs| - 1]) + ClusterBytes(g, disk, cs[|cs| - 1])
  }

  predicate InCluster(g: Geometry, c: UInt32, lba: nat) {
    g.SectorOf(c) <= lba < g.SectorOf(c) + g.PerCluster()
  }

  lemma {:induction false} RunUnchanged(disk: Disk, lba: nat, k: nat, at: nat, content: Sector)
    requires at < lba || lba + k <= at
    ensures SectorRun(Put(disk, at, content), lba, k) == SectorRun(disk, lba, k)
    decreases k
  {
    if k > 0 {
      RunUnchanged(disk, lba + 1, k - 1, at, content);
    }
  }

  lemma {:induction false} JoinedUnchanged(g: Geometry, disk: Disk, cs: seq<UInt32>, at: nat, content: Sector)
    requires forall c :: c in cs ==> !InCluster(g, c, at)
    ensures Joined(g, Put(disk, at, content), cs) == Joined(g, disk, cs)
    decreases |cs|
  {
    if cs != [] {
      var front, last := cs[..|cs| - 1], cs[|cs| - 1];
      assert last in cs && forall c :: c in front ==> c in cs;
      JoinedUnchanged(g, disk, front, at, content);
      RunUnchanged(disk, g.SectorOf(last), g.PerCluster(), at, content);
    }
  }

  /** The last cluster behind its first sector. */
  function Slack(g: Geometry, disk: Disk, c: UInt32): Bytes
    requires g.PerCluster() > 0
  {
    SectorRun(disk, g.SectorOf(c) + 1, g.PerCluster() - 1)
  }

  /** Writing the first sector of a cluster replaces the first 512 of its bytes. */
  lemma ClusterBytesAfter(g: Geometry, disk: Disk, c: UInt32, content: Sector)
    requires g.PerCluster() > 0 && g.SectorOf(c) < |disk|
    ensures ClusterBytes(g, Put(disk, g.SectorOf(c), content), c) == content + Slack(g, disk, c)
    ensures ClusterBytes(g, disk, c) == SectorAt(disk, g.SectorOf(c)) + Slack(g, disk, c)
  {
    RunUnchanged(disk, g.SectorOf(c) + 1, g.PerCluster() - 1, g.SectorOf(c), content);
  }

  /** The same for the last of several clusters. */
  lemma JoinedAfter(g: Geometry, disk: Disk, front: seq<UInt32>, last: UInt32, content: Sector)
    requires g.PerCluster() > 0 && g.SectorOf(last) < |disk|
    requires forall c :: c in front ==> !InCluster(g, c, g.SectorOf(last))
    ensures Joined(g, Put(disk, g.SectorOf(last), content), front + [last]) ==
            Joined(g, disk, front) + (content + Slack(g, disk, last))
    ensures Joined(g, disk, front + [last]) ==
            Joined(g, disk, front) + (SectorAt(disk, g.SectorOf(last)) + Slack(g, disk, last))
  {
    assert (front + [last])[..|front|] == front;
    JoinedUnchanged(g, disk, front, g.SectorOf(last), content);
    ClusterBytesAfter(g, disk, last, content);
  }

  /** Contents begin with the first sector of the first cluster. */
  lemma {:induction false} JoinedBegins(g: Geometry, disk: Disk, cs: seq<UInt32>)
    requires cs != [] && g.PerCluster() > 0
    ensures |Joined(g, disk, cs)| >= 512 && Joined(g, disk, cs)[..512] == SectorAt(disk, g.SectorOf(cs[0]))
    decreases |cs|
  {
    var front, last := cs[..|cs| - 1], cs[|cs| - 1];
    if front == [] {
      assert Joined(g, disk, cs) == ClusterBytes(g, disk, last);
      assert ClusterBytes(g, disk, last) == SectorAt(disk, g.SectorOf(last)) + Slack(g, disk, last);
    } else {
      JoinedBegins(g, disk, front);
    }
  }

  // ----- where clusters lie -----

  lemma {:induction false} ClusterRange(g: Geometry, n: nat, c: nat)
    requires g.Fits(n) && 2 <= c < FAT_ENTRIES
    ensures g.SectorOf(c) == g.Plain(c) < n && g.fatStart < g.SectorOf(c)
    ensures g.PerCluster() > 0 && g.Plain(c) + g.PerCluster() == g.Plain(c + 1)
  {
    SectorsDoNotWrap(g, n, c, FAT_ENTRIES - 1);
  }

  lemma PlainGrows(g: Geometry, c: nat, d: nat)
    requires 2 <= c <= d
    ensures g.Plain(c) <= g.Plain(d)
  {
    Multiplying(c - 2, d - 2, g.PerCluster());
  }

  /**
   A cluster's sectors are its own: none is the table's, and none is any other cluster's or the root's. The
   first is on the device, and so are all when the device reaches behind the last cluster of the table.
   */
  lemma ClustersAreApart(g: Geometry, n: nat, c: nat, d: nat)
    requires g.Fits(n) && 2 <= c < FAT_ENTRIES && (2 <= d < FAT_ENTRIES || d == g.rootCluster)
    ensures g.SectorOf(c) < n && g.SectorOf(d) < n && !InCluster(g, c, g.fatStart)
    ensures InCluster(g, c, g.SectorOf(d)) <==> c == d
    ensures c != d ==> forall lba: nat :: !(InCluster(g, c, lba) && InCluster(g, d, lba))
    ensures g.Plain(FAT_ENTRIES) <= n ==> g.SectorOf(c) + g.PerCluster() <= n
  {
    ClusterRange(g, n, c);
    PlainGrows(g, c + 1, FAT_ENTRIES);
    if d == g.rootCluster {
      SectorsDoNotWrap(g, n, d, d);
    } else {
      SectorsDoNotWrap(g, n, d, FAT_ENTRIES - 1);
    }
    if c < d {
      PlainGrows(g, c + 1, d);
    } else if d < c {
      PlainGrows(g, d + 1, c);
      assert g.Plain(d) + g.PerCluster() == g.Plain(d + 1);
    }
  }
}
