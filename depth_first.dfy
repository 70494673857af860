/**
 * The depth-first numbering of the loop finder, as a relation between two
 * snapshots of what it writes: block numbers in preorder, the last number
 * of each DFS subtree, and the union-find nodes those numbers name.  The
 * ancestor test of the loop finder reads these intervals.
 */
module DepthFirst {
  import opened Options

  /** Marker for a block DFS has not numbered. */
  const Unvisited: int := -1

  /** The pre-order ancestor test: `v` lies in the DFS interval of `w`. */
  predicate IsAncestor(w: nat, v: nat, last: seq<int>)
    requires w < |last|
  {
    w <= v && v <= last[w]
  }

  /** The DFS intervals `[k, last[k]]` of the numbers `lo..hi` lie inside `lo..hi` and start at `k`. */
  ghost predicate Bounded(last: seq<int>, lo: int, hi: int)
  {
    forall k | lo <= k <= hi && 0 <= k < |last| :: k <= last[k] <= hi
  }

  /** Two DFS intervals of the numbers `lo..hi` are nested or disjoint. */
  ghost predicate Laminar(last: seq<int>, lo: int, hi: int)
  {
    forall k, j | lo <= k <= j <= hi && 0 <= k && j < |last| && j <= last[k] :: last[j] <= last[k]
  }

  /** Every numbered block is its own ancestor. */
  lemma AncestorReflexive(last: seq<int>, n: nat, w: nat)
    requires Bounded(last, 0, n - 1) && w < n <= |last|
    ensures IsAncestor(w, w, last)
  {
  }

  /** The ancestor relation given by nested DFS intervals is transitive. */
  lemma AncestorTransitive(last: seq<int>, n: nat, u: nat, w: nat, v: nat)
    requires Bounded(last, 0, n - 1) && Laminar(last, 0, n - 1) && u < n <= |last| && w < n
    requires IsAncestor(u, w, last) && IsAncestor(w, v, last)
    ensures IsAncestor(u, v, last)
  {
  }

  /** The blocks DFS has not numbered yet. */
  ghost function UnvisitedBlocks(number: seq<int>): set<nat>
  {
    set b: nat | b < |number| && number[b] == Unvisited
  }

  /** The numbers of `n` blocks before DFS: every block unvisited. */
  function Unnumbered(n: nat): (r: seq<int>)
    ensures |r| == n && forall b | 0 <= b < n :: r[b] == Unvisited
  {
    seq(n, b => Unvisited)
  }

  /** The subtree ends of `n` blocks before DFS. */
  function Zeros(n: nat): (r: seq<int>)
    ensures |r| == n && forall k | 0 <= k < n :: r[k] == 0
  {
    seq(n, k => 0)
  }

  /** Before DFS, every block is unvisited. */
  lemma {:induction false} AllUnvisited(n: nat)
    ensures |UnvisitedBlocks(Unnumbered(n))| == n
  {
    if n > 0 {
      AllUnvisited(n - 1);
      var s := Unnumbered(n - 1);
      assert Unnumbered(n) == s + [Unvisited];
      assert UnvisitedBlocks(s + [Unvisited]) == UnvisitedBlocks(s) + {n - 1};
    }
  }

  /**
   * The numbers `0..next-1` have been given, every block holds one of them
   * or is unvisited, and the unvisited blocks make up the rest.
   */
  ghost predicate Counted(number: seq<int>, next: nat)
  {
    && next + |UnvisitedBlocks(number)| == |number|
    && (forall b | 0 <= b < |number| :: Unvisited <= number[b] < next)
  }

  /** Numbering an unvisited block `next` gives the next number. */
  lemma NumberOne(number: seq<int>, block: nat, next: nat)
    requires block < |number| && number[block] == Unvisited && Counted(number, next)
    ensures Counted(number[block := next], next + 1)
  {
    assert UnvisitedBlocks(number[block := next]) == UnvisitedBlocks(number) - {block};
  }

  /** What a depth-first search leaves: the block numbers, the subtree ends, and the last number given. */
  datatype Searched = Searched(number: seq<int>, last: seq<int>, lastid: nat)

  /**
   * The reference depth-first search over `edges`: `block`, unvisited, gets
   * `current`; then, in out-edge order, each successor still unvisited at
   * its turn is searched with the number after the last one given; finally
   * the last number given is recorded as the end of `current`'s subtree.
   */
  ghost function Search(edges: seq<seq<nat>>, number: seq<int>, last: seq<int>, block: nat, current: nat): (r: Searched)
    requires EdgesInRange(edges) && |number| == |edges| && |last| == |edges|
    requires block < |edges| && number[block] == Unvisited && Counted(number, current)
    ensures |r.number| == |edges| && |r.last| == |edges| && current <= r.lastid && Counted(r.number, r.lastid + 1)
    decreases |UnvisitedBlocks(number)|, 0, 0
  {
    NumberOne(number, block, current);
    var r := SearchEdges(edges, number[block := current], last, block, current, 0);
    Searched(r.number, r.last[current := r.lastid], r.lastid)
  }

  /** The search over the out-edges of `block` from the `i`-th on, `lastid` being the last number given. */
  ghost function SearchEdges(edges: seq<seq<nat>>, number: seq<int>, last: seq<int>, block: nat, lastid: nat, i: nat): (r: Searched)
    requires EdgesInRange(edges) && |number| == |edges| && |last| == |edges|
    requires block < |edges| && i <= |edges[block]| && Counted(number, lastid + 1)
    ensures |r.number| == |edges| && |r.last| == |edges| && lastid <= r.lastid && Counted(r.number, r.lastid + 1)
    decreases |UnvisitedBlocks(number)|, 1, |edges[block]| - i
  {
    if i == |edges[block]| then Searched(number, last, lastid)
    else if number[edges[block][i]] == Unvisited then
      var r := Search(edges, number, last, edges[block][i], lastid + 1);
      SearchEdges(edges, r.number, r.last, block, r.lastid, i + 1)
    else SearchEdges(edges, number, last, block, lastid, i + 1)
  }

  /** The reference search of a whole graph from `start`, every block unvisited before and every subtree end 0. */
  ghost function SearchAll(edges: seq<seq<nat>>, start: nat): (r: Searched)
    requires EdgesInRange(edges) && start < |edges|
    ensures |r.number| == |edges| && |r.last| == |edges| && Counted(r.number, r.lastid + 1)
  {
    AllUnvisited(|edges|);
    Search(edges, Unnumbered(|edges|), Zeros(|edges|), start, 0)
  }

  /** `p` is a walk along out-edges. */
  ghost predicate IsPath(edges: seq<seq<nat>>, p: seq<nat>)
  {
    forall k | 0 <= k < |p| - 1 :: p[k] < |edges| && p[k + 1] in edges[p[k]]
  }

  /** Some walk along out-edges leads from `a` to `b`. */
  ghost predicate Reachable(edges: seq<seq<nat>>, a: nat, b: nat)
  {
    exists p | IsPath(edges, p) :: |p| > 0 && p[0] == a && p[|p| - 1] == b
  }

  /** A block reaches itself, and a successor's reach is its predecessor's. */
  lemma ReachableStep(edges: seq<seq<nat>>, a: nat, t: nat, b: nat)
    requires a < |edges| && t in edges[a] && Reachable(edges, t, b)
    ensures Reachable(edges, a, b)
  {
    var p :| IsPath(edges, p) && |p| > 0 && p[0] == t && p[|p| - 1] == b;
    var q := [a] + p;
    assert forall k | 1 <= k < |q| :: q[k] == p[k - 1];
    assert IsPath(edges, q);
  }

  /** Every block the search numbers is reachable from the block it starts at. */
  lemma {:induction false} SearchReaches(edges: seq<seq<nat>>, number: seq<int>, last: seq<int>, block: nat, current: nat, b: nat)
    requires EdgesInRange(edges) && |number| == |edges| && |last| == |edges|
    requires block < |edges| && number[block] == Unvisited && Counted(number, current)
    requires b < |edges| && number[b] == Unvisited && Search(edges, number, last, block, current).number[b] != Unvisited
    ensures Reachable(edges, block, b)
    decreases |UnvisitedBlocks(number)|, 0, 0
  {
    NumberOne(number, block, current);
    if b == block {
      assert IsPath(edges, [block]);
    } else {
      SearchEdgesReach(edges, number[block := current], last, block, current, 0, b);
    }
  }

  /** Every block the search from the `i`-th out-edge of `block` numbers is reachable from `block`. */
  lemma {:induction false} SearchEdgesReach(edges: seq<seq<nat>>, number: seq<int>, last: seq<int>, block: nat, lastid: nat, i: nat, b: nat)
    requires EdgesInRange(edges) && |number| == |edges| && |last| == |edges|
    requires block < |edges| && i <= |edges[block]| && Counted(number, lastid + 1)
    requires b < |edges| && number[b] == Unvisited && SearchEdges(edges, number, last, block, lastid, i).number[b] != Unvisited
    ensures Reachable(edges, block, b)
    decreases |UnvisitedBlocks(number)|, 1, |edges[block]| - i
  {
    if i == |edges[block]| {
      assert false;
    } else if number[edges[block][i]] == Unvisited {
      var t := edges[block][i];
      var r := Search(edges, number, last, t, lastid + 1);
      if r.number[b] != Unvisited {
        SearchReaches(edges, number, last, t, lastid + 1, b);
        ReachableStep(edges, block, t, b);
      } else {
        SearchEdgesReach(edges, r.number, r.last, block, r.lastid, i + 1, b);
      }
    } else {
      SearchEdgesReach(edges, number, last, block, lastid, i + 1, b);
    }
  }

  /**
   * When `start` is numbered and every successor of a numbered block is
   * numbered, every block reachable from `start` is numbered.
   */
  lemma ReachedNumbered(edges: seq<seq<nat>>, number: seq<int>, start: nat, b: nat)
    requires |number| == |edges| && start < |edges| && number[start] != Unvisited
    requires forall x, j | 0 <= x < |edges| && number[x] != Unvisited && 0 <= j < |edges[x]| ::
      edges[x][j] < |edges| && number[edges[x][j]] != Unvisited
    requires Reachable(edges, start, b)
    ensures b < |edges| && number[b] != Unvisited
  {
    var p :| IsPath(edges, p) && |p| > 0 && p[0] == start && p[|p| - 1] == b;
    var k := 0;
    while k < |p| - 1
      invariant 0 <= k < |p| && p[k] < |edges| && number[p[k]] != Unvisited
    {
      var j :| 0 <= j < |edges[p[k]]| && edges[p[k]][j] == p[k + 1];
      k := k + 1;
    }
  }

  /** From `n0` to `n1` numbered blocks stay numbered, and every successor of a newly numbered block is numbered. */
  ghost predicate GrowsClosed(edges: seq<seq<nat>>, n0: seq<int>, n1: seq<int>)
    requires |n0| == |edges| && |n1| == |edges|
  {
    && (forall b | 0 <= b < |edges| && n0[b] != Unvisited :: n1[b] != Unvisited)
    && (forall b, j | 0 <= b < |edges| && n0[b] == Unvisited && n1[b] != Unvisited && 0 <= j < |edges[b]| ::
          edges[b][j] < |edges| && n1[edges[b][j]] != Unvisited)
  }

  lemma GrowsClosedJoin(edges: seq<seq<nat>>, n0: seq<int>, n1: seq<int>, n2: seq<int>)
    requires |n0| == |edges| && |n1| == |edges| && |n2| == |edges|
    requires GrowsClosed(edges, n0, n1) && GrowsClosed(edges, n1, n2)
    ensures GrowsClosed(edges, n0, n2)
  {
    forall b, j | 0 <= b < |edges| && n0[b] == Unvisited && n2[b] != Unvisited && 0 <= j < |edges[b]|
      ensures edges[b][j] < |edges| && n2[edges[b][j]] != Unvisited
    {
      if n1[b] != Unvisited {
        assert n1[edges[b][j]] != Unvisited;
      }
    }
  }

  /** The search keeps numbered blocks numbered, numbers `block`, and numbers every successor of a block it numbers. */
  lemma {:induction false} SearchCloses(edges: seq<seq<nat>>, number: seq<int>, last: seq<int>, block: nat, current: nat)
    requires EdgesInRange(edges) && |number| == |edges| && |last| == |edges|
    requires block < |edges| && number[block] == Unvisited && Counted(number, current)
    ensures var r := Search(edges, number, last, block, current);
      r.number[block] != Unvisited && GrowsClosed(edges, number, r.number)
    decreases |UnvisitedBlocks(number)|, 0, 0
  {
    NumberOne(number, block, current);
    var n1 := number[block := current];
    SearchEdgesClose(edges, n1, last, block, current, 0);
    var r := SearchEdges(edges, n1, last, block, current, 0);
    assert GrowsClosed(edges, number, r.number) by {
      forall b, j | 0 <= b < |edges| && number[b] == Unvisited && r.number[b] != Unvisited && 0 <= j < |edges[b]|
        ensures edges[b][j] < |edges| && r.number[edges[b][j]] != Unvisited
      {
        if b != block {
          assert n1[b] == Unvisited;
        }
      }
    }
  }

  /** SearchCloses for the out-edges of `block` from the `i`-th on, which all end up numbered. */
  lemma {:induction false} SearchEdgesClose(edges: seq<seq<nat>>, number: seq<int>, last: seq<int>, block: nat, lastid: nat, i: nat)
    requires EdgesInRange(edges) && |number| == |edges| && |last| == |edges|
    requires block < |edges| && i <= |edges[block]| && Counted(number, lastid + 1)
    ensures var r := SearchEdges(edges, number, last, block, lastid, i);
      && GrowsClosed(edges, number, r.number)
      && (forall j | i <= j < |edges[block]| :: r.number[edges[block][j]] != Unvisited)
    decreases |UnvisitedBlocks(number)|, 1, |edges[block]| - i
  {
    if i < |edges[block]| {
      var t := edges[block][i];
      if number[t] == Unvisited {
        var r1 := Search(edges, number, last, t, lastid + 1);
        SearchCloses(edges, number, last, t, lastid + 1);
        SearchEdgesClose(edges, r1.number, r1.last, block, r1.lastid, i + 1);
        var r2 := SearchEdges(edges, r1.number, r1.last, block, r1.lastid, i + 1);
        ClosedThrough(edges, number, r1.number, r2.number, block, i);
      } else {
        SearchEdgesClose(edges, number, last, block, lastid, i + 1);
      }
    }
  }

  /** Joining a search of the `i`-th successor with the search of the out-edges after it. */
  lemma ClosedThrough(edges: seq<seq<nat>>, n0: seq<int>, n1: seq<int>, n2: seq<int>, block: nat, i: nat)
    requires EdgesInRange(edges) && |n0| == |edges| && |n1| == |edges| && |n2| == |edges| && block < |edges| && i < |edges[block]|
    requires GrowsClosed(edges, n0, n1) && GrowsClosed(edges, n1, n2) && n1[edges[block][i]] != Unvisited
    requires forall j | i + 1 <= j < |edges[block]| :: n2[edges[block][j]] != Unvisited
    ensures GrowsClosed(edges, n0, n2) && forall j | i <= j < |edges[block]| :: n2[edges[block][j]] != Unvisited
  {
    GrowsClosedJoin(edges, n0, n1, n2);
  }

  /** The blocks a whole-graph search from `start` numbers are exactly those reachable from `start`. */
  lemma NumberedIffReachable(edges: seq<seq<nat>>, start: nat, b: nat)
    requires EdgesInRange(edges) && start < |edges| && b < |edges|
    ensures SearchAll(edges, start).number[b] != Unvisited <==> Reachable(edges, start, b)
  {
    var r := SearchAll(edges, start);
    AllUnvisited(|edges|);
    SearchCloses(edges, Unnumbered(|edges|), Zeros(|edges|), start, 0);
    if r.number[b] != Unvisited {
      SearchReaches(edges, Unnumbered(|edges|), Zeros(|edges|), start, 0, b);
    }
    if Reachable(edges, start, b) {
      ReachedNumbered(edges, r.number, start, b);
    }
  }

  /** A snapshot of what DFS writes: block numbers, `last`, and the nodes' parent, block and loop. */
  datatype Numbering = Numbering(number: seq<int>, last: seq<int>, parent: seq<nat>, bb: seq<Option<nat>>, loop: seq<Option<nat>>)

  ghost predicate Sized(s: Numbering, n: nat)
  {
    |s.number| == n && |s.last| == n && |s.parent| == n && |s.bb| == n && |s.loop| == n
  }

  /** Numbers once given stay. */
  ghost predicate NumbersKept(n0: seq<int>, n1: seq<int>)
    requires |n0| == |n1|
  {
    forall b | 0 <= b < |n0| && n0[b] != Unvisited :: n1[b] == n0[b]
  }

  /** The numbers given between `n0` and `n1` lie in `lo..hi`. */
  ghost predicate NumbersNew(n0: seq<int>, n1: seq<int>, lo: int, hi: int)
    requires |n0| == |n1|
  {
    forall b | 0 <= b < |n0| && n0[b] == Unvisited && n1[b] != Unvisited :: lo <= n1[b] <= hi
  }

  /** Outside `lo..hi`, `last` and the nodes are as they were. */
  ghost predicate FrameOutside(s0: Numbering, s1: Numbering, lo: int, hi: int)
    requires Sized(s0, |s0.number|) && Sized(s1, |s0.number|)
  {
    forall k | 0 <= k < |s0.number| && (k < lo || hi < k) ::
      s1.last[k] == s0.last[k] && s1.parent[k] == s0.parent[k] && s1.bb[k] == s0.bb[k] && s1.loop[k] == s0.loop[k]
  }

  /** The nodes `lo..hi` are singleton sets without a loop. */
  ghost predicate FreshNodes(s: Numbering, lo: int, hi: int)
    requires Sized(s, |s.number|)
  {
    forall k | lo <= k <= hi && 0 <= k < |s.number| :: s.parent[k] == k && s.loop[k] == None
  }

  /** Every successor of a block numbered in `lo..hi` is numbered. */
  ghost predicate SuccessorsNumbered(edges: seq<seq<nat>>, number: seq<int>, lo: int, hi: int)
    requires |number| == |edges|
  {
    forall b, j | 0 <= b < |edges| && lo <= number[b] <= hi && 0 <= j < |edges[b]| ::
      edges[b][j] < |edges| && number[edges[b][j]] != Unvisited
  }

  /**
   * What a DFS call giving the numbers `lo..hi` does, from `s0` to `s1`:
   * numbers once given stay, the new ones lie in `lo..hi`, nothing outside
   * `lo..hi` changes in `last` or the nodes, the new nodes are fresh
   * singletons, the intervals of `lo..hi` are bounded and laminar, and every
   * successor of a block numbered in `lo..hi` is numbered.
   */
  ghost predicate Visit(edges: seq<seq<nat>>, s0: Numbering, s1: Numbering, lo: int, hi: int)
    requires Sized(s0, |edges|) && Sized(s1, |edges|)
  {
    && NumbersKept(s0.number, s1.number) && NumbersNew(s0.number, s1.number, lo, hi)
    && FrameOutside(s0, s1, lo, hi) && FreshNodes(s1, lo, hi)
    && Bounded(s1.last, lo, hi) && Laminar(s1.last, lo, hi)
    && SuccessorsNumbered(edges, s1.number, lo, hi)
  }

  /** Nothing numbered yet is nothing done. */
  lemma VisitEmpty(edges: seq<seq<nat>>, s: Numbering, lo: int)
    requires Sized(s, |edges|)
    ensures Visit(edges, s, s, lo, lo - 1)
  {
  }

  lemma SuccessorsJoin(edges: seq<seq<nat>>, n0: seq<int>, n1: seq<int>, n2: seq<int>, lo: int, mid: int, hi: int)
    requires |n0| == |edges| && |n1| == |edges| && |n2| == |edges| && lo <= mid + 1 <= hi + 1 && 0 <= lo
    requires NumbersKept(n1, n2) && NumbersNew(n1, n2, mid + 1, hi)
    requires SuccessorsNumbered(edges, n1, lo, mid) && SuccessorsNumbered(edges, n2, mid + 1, hi)
    ensures SuccessorsNumbered(edges, n2, lo, hi)
  {
    forall b, j | 0 <= b < |edges| && lo <= n2[b] <= hi && 0 <= j < |edges[b]|
      ensures edges[b][j] < |edges| && n2[edges[b][j]] != Unvisited
    {
      if n2[b] <= mid {
        assert n1[b] == n2[b];
        assert n1[edges[b][j]] != Unvisited;
      }
    }
  }

  lemma LaminarJoin(l1: seq<int>, l2: seq<int>, lo: int, mid: int, hi: int)
    requires |l1| == |l2| && lo <= mid + 1 <= hi + 1
    requires forall k | lo <= k <= mid && 0 <= k < |l1| :: l2[k] == l1[k]
    requires Bounded(l1, lo, mid) && Laminar(l1, lo, mid) && Bounded(l2, mid + 1, hi) && Laminar(l2, mid + 1, hi)
    ensures Bounded(l2, lo, hi) && Laminar(l2, lo, hi)
  {
  }

  /** Two DFS calls one after the other number one range. */
  lemma VisitJoin(edges: seq<seq<nat>>, s0: Numbering, s1: Numbering, s2: Numbering, lo: int, mid: int, hi: int)
    requires Sized(s0, |edges|) && Sized(s1, |edges|) && Sized(s2, |edges|) && lo <= mid + 1 <= hi + 1 && 0 <= lo
    requires Visit(edges, s0, s1, lo, mid) && Visit(edges, s1, s2, mid + 1, hi)
    ensures Visit(edges, s0, s2, lo, hi)
  {
    SuccessorsJoin(edges, s0.number, s1.number, s2.number, lo, mid, hi);
    LaminarJoin(s1.last, s2.last, lo, mid, hi);
  }

  /**
   * A DFS call on a block: number it `lo` (state `s1`), visit its successors
   * (`s1` to `s2`, numbers `lo + 1..hi`), and set `last[lo]` to `hi`.
   */
  lemma VisitTop(edges: seq<seq<nat>>, s0: Numbering, s1: Numbering, s2: Numbering, block: nat, lo: nat, hi: int)
    requires Sized(s0, |edges|) && Sized(s1, |edges|) && Sized(s2, |edges|) && block < |edges| && lo < |edges| && lo <= hi
    requires s0.number[block] == Unvisited && forall b | 0 <= b < |edges| :: s0.number[b] < lo
    requires s1 == s0.(number := s0.number[block := lo], parent := s0.parent[lo := lo], bb := s0.bb[lo := Some(block)],
                       loop := s0.loop[lo := None])
    requires Visit(edges, s1, s2, lo + 1, hi)
    requires forall j | 0 <= j < |edges[block]| :: edges[block][j] < |edges| && s2.number[edges[block][j]] != Unvisited
    ensures Visit(edges, s0, s2.(last := s2.last[lo := hi]), lo, hi)
  {
    var s3 := s2.(last := s2.last[lo := hi]);
    assert s2.number[block] == lo;
    assert SuccessorsNumbered(edges, s3.number, lo, hi) by {
      forall b, j | 0 <= b < |edges| && lo <= s3.number[b] <= hi && 0 <= j < |edges[b]|
        ensures edges[b][j] < |edges| && s3.number[edges[b][j]] != Unvisited
      {
        if s3.number[b] == lo {
          assert b == block;
        }
      }
    }
  }

  /** Every out-edge leads to a block of the graph. */
  ghost predicate EdgesInRange(edges: seq<seq<nat>>)
  {
    forall b, j | 0 <= b < |edges| && 0 <= j < |edges[b]| :: edges[b][j] < |edges|
  }

  /**
   * The numbering after the numbers `0..next-1` have been given: the
   * numbered blocks and the initialised nodes correspond one to one, and
   * the remaining blocks are counted by the unvisited set.
   */
  ghost predicate Numbers(s: Numbering, next: nat)
    requires Sized(s, |s.number|)
  {
    && Counted(s.number, next)
    && (forall b {:trigger s.bb[s.number[b]]} | 0 <= b < |s.number| && s.number[b] != Unvisited :: s.bb[s.number[b]] == Some(b))
    && (forall k | 0 <= k < |s.number| ::
          if k < next then s.bb[k].Some? && s.bb[k].value < |s.number| && s.number[s.bb[k].value] == k
          else s.bb[k] == None)
  }

  /** Before the DFS, with every block unvisited and no node given a block, no number has been given. */
  lemma NumbersStart(s: Numbering, n: nat)
    requires Sized(s, n) && s.number == Unnumbered(n)
    requires forall k | 0 <= k < n :: s.bb[k] == None
    ensures Numbers(s, 0)
  {
    AllUnvisited(n);
  }

  /** Numbering an unvisited block `next` keeps the correspondence. */
  lemma NumbersInit(s0: Numbering, s1: Numbering, block: nat, next: nat)
    requires Sized(s0, |s0.number|) && Sized(s1, |s0.number|) && block < |s0.number|
    requires Numbers(s0, next) && s0.number[block] == Unvisited
    requires next < |s0.number|
    requires s1 == s0.(number := s0.number[block := next], parent := s0.parent[next := next], bb := s0.bb[next := Some(block)],
                       loop := s0.loop[next := None])
    ensures Numbers(s1, next + 1)
  {
    var before := UnvisitedBlocks(s0.number);
    assert block in before;
    assert UnvisitedBlocks(s1.number) == before - {block};
  }

  /**
   * The state `s` of DFS on `block` (numbered `current`) after its first `i`
   * out-edges: the numbers `current + 1..lastid` were given since `s1`, and
   * the first `i` successors are numbered.
   */
  ghost predicate Visiting(edges: seq<seq<nat>>, s1: Numbering, s: Numbering, block: nat, current: nat, lastid: nat, i: nat)
  {
    && block < |edges| && i <= |edges[block]| && current <= lastid
    && Sized(s1, |edges|) && Sized(s, |edges|) && Numbers(s, lastid + 1) && s.number[block] == current
    && Visit(edges, s1, s, current + 1, lastid)
    && (forall j | 0 <= j < i :: edges[block][j] < |edges| && s.number[edges[block][j]] != Unvisited)
    && (lastid > current ==> s.bb[current + 1].Some? && s.bb[current + 1].value in edges[block])
  }

  /** The `i`-th successor was already numbered: nothing to do. */
  lemma VisitingSkip(edges: seq<seq<nat>>, s1: Numbering, s: Numbering, block: nat, current: nat, lastid: nat, i: nat)
    requires Visiting(edges, s1, s, block, current, lastid, i) && i < |edges[block]| && EdgesInRange(edges)
    requires s.number[edges[block][i]] != Unvisited
    ensures Visiting(edges, s1, s, block, current, lastid, i + 1)
  {
  }

  /** The `i`-th successor was unvisited, and a DFS call numbered it `lastid + 1` and gave `lastid + 1..next`. */
  lemma VisitingStep(edges: seq<seq<nat>>, s1: Numbering, mid: Numbering, s: Numbering, block: nat, current: nat,
                     lastid: nat, i: nat, next: nat)
    requires Visiting(edges, s1, mid, block, current, lastid, i) && i < |edges[block]| && EdgesInRange(edges)
    requires mid.number[edges[block][i]] == Unvisited
    requires Visited(edges, mid, s, edges[block][i], lastid + 1, next)
    ensures Visiting(edges, s1, s, block, current, next, i + 1)
  {
    VisitJoin(edges, s1, mid, s, current + 1, lastid, next);
    var target := edges[block][i];
    assert s.bb[s.number[target]] == Some(target);
  }

  /** Numbering `block` as `current` starts its visit. */
  lemma VisitingStart(edges: seq<seq<nat>>, s0: Numbering, s1: Numbering, block: nat, current: nat)
    requires Sized(s0, |edges|) && block < |edges| && current < |edges|
    requires Numbers(s0, current) && s0.number[block] == Unvisited
    requires s1 == s0.(number := s0.number[block := current], parent := s0.parent[current := current],
                       bb := s0.bb[current := Some(block)], loop := s0.loop[current := None])
    ensures Visiting(edges, s1, s1, block, current, current, 0)
  {
    NumbersInit(s0, s1, block, current);
    VisitEmpty(edges, s1, current + 1);
  }

  /**
   * What DFS on `block` with number `current` did, from `s0` to `s`: it
   * gave the numbers `current..lastid`, `current` to `block`, recorded
   * `lastid` as `last[current]`, and gave `current + 1`, if at all, to a
   * successor of `block`.
   */
  ghost predicate Visited(edges: seq<seq<nat>>, s0: Numbering, s: Numbering, block: nat, current: nat, lastid: nat)
  {
    && block < |edges| && current <= lastid && Sized(s0, |edges|) && Sized(s, |edges|)
    && Numbers(s, lastid + 1) && s.number[block] == current && s.last[current] == lastid
    && Visit(edges, s0, s, current, lastid)
    && (lastid > current ==> s.bb[current + 1].Some? && s.bb[current + 1].value in edges[block])
  }

  /**
   * The visit from the start block, numbered 0, over nodes that were all
   * singleton sets without a loop: the numbers 0..lastid are given, their
   * intervals nest, every successor of a numbered block is numbered, and
   * the nodes are still singleton sets without a loop.
   */
  lemma VisitedFromStart(edges: seq<seq<nat>>, s0: Numbering, s: Numbering, start: nat, lastid: nat)
    requires Visited(edges, s0, s, start, 0, lastid)
    requires forall k | 0 <= k < |edges| :: s0.parent[k] == k && s0.loop[k] == None
    ensures Numbers(s, lastid + 1) && Bounded(s.last, 0, lastid) && Laminar(s.last, 0, lastid)
    ensures SuccessorsNumbered(edges, s.number, 0, lastid)
    ensures forall k | 0 <= k < |edges| :: s.parent[k] == k && s.loop[k] == None
  {
  }

  /** Closing the visit: all successors are numbered and `last[current]` is set. */
  lemma VisitDone(edges: seq<seq<nat>>, s0: Numbering, s1: Numbering, s2: Numbering, s3: Numbering, block: nat, current: nat, lastid: nat)
    requires Sized(s0, |edges|) && block < |edges| && current < |edges| && Numbers(s0, current) && s0.number[block] == Unvisited
    requires s1 == s0.(number := s0.number[block := current], parent := s0.parent[current := current],
                       bb := s0.bb[current := Some(block)], loop := s0.loop[current := None])
    requires Visiting(edges, s1, s2, block, current, lastid, |edges[block]|)
    requires s3 == s2.(last := s2.last[current := lastid])
    ensures Visited(edges, s0, s3, block, current, lastid)
  {
    VisitTop(edges, s0, s1, s2, block, current, lastid);
  }
}
