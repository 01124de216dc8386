/**
 The walk to the last cluster of a chain and the counter that guards it. Nothing is assumed of the
 links: an index past the table reads whatever lies in memory behind it.
 */
module FatWalk {
  import opened Machine
  import opened Wrappers
  import opened FatLayout

  type Links = UInt32 -> UInt32

  /** The entry of `c` links on: it is neither free nor an end mark. */
  predicate Continues(links: Links, c: UInt32) {
    2 <= links(c) % LINK_MODULUS < FIRST_END_MARK
  }

  function Follow(links: Links, c: UInt32): UInt32 {
    links(c) % LINK_MODULUS
  }

  /** Where the chain from `c` stands after `n` links. */
  function After(links: Links, c: UInt32, n: nat): UInt32 {
    if n == 0 then c else Follow(links, After(links, c, n - 1))
  }

  /** The first `n` clusters on the way all link on. */
  ghost predicate RunsOn(links: Links, c: UInt32, n: nat) {
    forall i: nat :: i < n ==> Continues(links, After(links, c, i))
  }

  /** The last cluster, or None when more than `limit` links were followed. */
  function LastCluster(links: Links, c: UInt32, followed: nat, limit: nat): Option<UInt32>
    requires followed <= limit
    decreases limit - followed
  {
    if !Continues(links, c) then Some(c)
    else if followed + 1 > limit then None
    else LastCluster(links, Follow(links, c), followed + 1, limit)
  }

  /** The loop of the append path. It ends whatever the links are. */
  method WalkToEnd(links: Links, start: UInt32, limit: nat) returns (last: Option<UInt32>)
    ensures last == LastCluster(links, start, 0, limit)
  {
    var current, guard := start, 0;
    while Continues(links, current)
      invariant guard <= limit
      invariant LastCluster(links, start, 0, limit) == LastCluster(links, current, guard, limit)
      decreases limit - guard
    {
      current := Follow(links, current);
      guard := guard + 1;
      if guard > limit {
        return None;
      }
    }
    last := Some(current);
  }

  lemma {:induction false} AfterOneMore(links: Links, c: UInt32, n: nat)
    ensures After(links, Follow(links, c), n) == After(links, c, n + 1)
  {
    if n > 0 {
      AfterOneMore(links, c, n - 1);
    }
  }

  /** The walk aborts exactly when the first `limit + 1` clusters of the chain all link on. */
  lemma {:induction false} AbortsExactlyOnLongChains(links: Links, c: UInt32, followed: nat, limit: nat)
    requires followed <= limit
    ensures LastCluster(links, c, followed, limit).None? <==> RunsOn(links, c, limit - followed + 1)
    decreases limit - followed
  {
    var n := limit - followed;
    if RunsOn(links, c, n + 1) {
      assert Continues(links, After(links, c, 0));
    }
    if Continues(links, c) && followed < limit {
      var next := Follow(links, c);
      AbortsExactlyOnLongChains(links, next, followed + 1, limit);
      if RunsOn(links, next, n) {
        forall i: nat | i < n + 1 ensures Continues(links, After(links, c, i)) {
          if i > 0 {
            AfterOneMore(links, c, i - 1);
            assert Continues(links, After(links, next, i - 1));
          }
        }
      }
      if RunsOn(links, c, n + 1) {
        forall i: nat | i < n ensures Continues(links, After(links, next, i)) {
          AfterOneMore(links, c, i);
          assert Continues(links, After(links, c, i + 1));
        }
      }
    }
  }

  /** When it does not abort it stands on the first cluster of the chain that links nowhere. */
  lemma {:induction false} ReachesTheEnd(links: Links, c: UInt32, followed: nat, limit: nat) returns (n: nat)
    requires followed <= limit && LastCluster(links, c, followed, limit).Some?
    ensures n <= limit - followed && RunsOn(links, c, n)
    ensures LastCluster(links, c, followed, limit) == Some(After(links, c, n)) && !Continues(links, After(links, c, n))
    decreases limit - followed
  {
    n := 0;
    if Continues(links, c) {
      var next := Follow(links, c);
      var m := ReachesTheEnd(links, next, followed + 1, limit);
      n := m + 1;
      AfterOneMore(links, c, m);
      forall i: nat | i < n ensures Continues(links, After(links, c, i)) {
        if i > 0 {
          AfterOneMore(links, c, i - 1);
          assert Continues(links, After(links, next, i - 1));
        }
      }
    }
  }

  /** Two different positions on the chain hold the same cluster, and the chain runs on past both. */
  ghost predicate Revisits(links: Links, c: UInt32) {
    exists i: nat, j: nat :: i < j && Loops(links, c, i, j)
  }

  ghost predicate Loops(links: Links, c: UInt32, i: nat, j: nat) {
    RunsOn(links, c, j) && After(links, c, i) == After(links, c, j)
  }

  /** The clusters that the chain can reach from `c` before it ends all lie in `s`. */
  ghost predicate StaysIn(links: Links, c: UInt32, s: set<UInt32>) {
    forall n: nat :: RunsOn(links, c, n) ==> After(links, c, n) in s
  }

  /**
   Main theorem: when the chain stays inside a set of at most `limit + 1` clusters, the guard fires
   exactly on cyclic chains, so an acyclic chain always reaches its last cluster.
   */
  lemma GuardFiresExactlyOnCycles(links: Links, c: UInt32, limit: nat, s: set<UInt32>)
    requires StaysIn(links, c, s) && |s| <= limit + 1
    ensures LastCluster(links, c, 0, limit).None? <==> Revisits(links, c)
  {
    AbortsExactlyOnLongChains(links, c, 0, limit);
    if RunsOn(links, c, limit + 1) {
      var i, j := Pigeonhole(links, c, limit + 2, s);
      assert Loops(links, c, i, j);
    }
    if Revisits(links, c) {
      var i: nat, j: nat :| i < j && Loops(links, c, i, j);
      CyclesRunForEver(links, c, i, j, limit + 1);
    }
  }

  /** Among `n` positions in a set of fewer than `n` clusters two coincide. */
  lemma {:induction false} Pigeonhole(links: Links, c: UInt32, n: nat, s: set<UInt32>) returns (i: nat, j: nat)
    requires |s| < n && forall k: nat :: k < n ==> After(links, c, k) in s
    ensures i < j < n && After(links, c, i) == After(links, c, j)
    decreases n
  {
    var last := After(links, c, n - 1);
    if k: nat :| k < n - 1 && After(links, c, k) == last {
      i, j := k, n - 1;
    } else {
      forall k: nat | k < n - 1 ensures After(links, c, k) in s - {last} {
        assert After(links, c, k) in s;
      }
      i, j := Pigeonhole(links, c, n - 1, s - {last});
    }
  }

  lemma {:induction false} CyclesRunForEver(links: Links, c: UInt32, i: nat, j: nat, n: nat)
    requires i < j && Loops(links, c, i, j)
    ensures RunsOn(links, c, n)
    decreases n
  {
    if n > j {
      CyclesRunForEver(links, c, i, j, n - 1);
      AroundTheCycle(links, c, i, j, n - 1 - j);
      assert After(links, c, n - 1) == After(links, c, i + (n - 1 - j));
      assert Continues(links, After(links, c, i + (n - 1 - j)));
    }
  }

  lemma {:induction false} AroundTheCycle(links: Links, c: UInt32, i: nat, j: nat, n: nat)
    requires After(links, c, i) == After(links, c, j)
    ensures After(links, c, i + n) == After(links, c, j + n)
  {
    if n > 0 {
      AroundTheCycle(links, c, i, j, n - 1);
    }
  }
}
