/**
 * Tarjan's union/find over the `nodes` arena of the loop finder.  Node `i`
 * is the union-find node of the block with DFS number `i` (Init always gives
 * a node its own index as DFS number), so a parent pointer is an index.
 * FindSet compresses paths; Union is a single pointer assignment.
 */
module UnionFind {
  import opened Options

  /**
   * Every parent pointer goes to an equal or smaller DFS number.  The finder
   * only ever unions a node into a header with a smaller number, and this is
   * what makes FindSet terminate (the parent graph has no cycle but self-loops).
   */
  ghost predicate Ordered(parent: seq<nat>)
  {
    forall i | 0 <= i < |parent| :: parent[i] <= i
  }

  /** The representative of `i`: follow parent pointers to a self-parented node. */
  function Find(parent: seq<nat>, i: nat): (r: nat)
    requires Ordered(parent) && i < |parent|
    ensures r <= i && parent[r] == r
    decreases i
  {
    if parent[i] == i then i else Find(parent, parent[i])
  }

  /** The nodes FindSet walks through before it reaches the representative. */
  ghost function Path(parent: seq<nat>, i: nat): (p: seq<nat>)
    requires Ordered(parent) && i < |parent|
    decreases i
  {
    if parent[i] == i then [] else [i] + Path(parent, parent[i])
  }

  /** Repointing one node straight at its representative changes no representative. */
  lemma {:induction false} CompressOne(parent: seq<nat>, x: nat, k: nat)
    requires Ordered(parent) && x < |parent| && k < |parent|
    ensures Ordered(parent[x := Find(parent, x)])
    ensures Find(parent[x := Find(parent, x)], k) == Find(parent, k)
    decreases k
  {
    var compressed := parent[x := Find(parent, x)];
    if k == x {
    } else if parent[k] != k {
      CompressOne(parent, x, parent[k]);
    }
  }

  lemma CompressPreservesFind(parent: seq<nat>, x: nat)
    requires Ordered(parent) && x < |parent|
    ensures Ordered(parent[x := Find(parent, x)])
    ensures forall k | 0 <= k < |parent| :: Find(parent[x := Find(parent, x)], k) == Find(parent, k)
  {
    forall k | 0 <= k < |parent|
      ensures Find(parent[x := Find(parent, x)], k) == Find(parent, k)
    {
      CompressOne(parent, x, k);
    }
  }

  /**
   * Union of a representative `u` into a representative `b` with a smaller
   * number: exactly the nodes whose representative was `u` now have `b`.
   */
  lemma {:induction false} UnionRedirects(parent: seq<nat>, u: nat, b: nat, k: nat)
    requires Ordered(parent) && u < |parent| && k < |parent|
    requires parent[u] == u && b < u && parent[b] == b
    ensures Ordered(parent[u := b])
    ensures Find(parent[u := b], k) == if Find(parent, k) == u then b else Find(parent, k)
    decreases k
  {
    if k != u && parent[k] != k {
      UnionRedirects(parent, u, b, parent[k]);
    }
  }

  /** Every node on the walked path is not a representative, and each parent step stays on the path or reaches the representative. */
  lemma {:induction false} PathShape(parent: seq<nat>, i: nat)
    requires Ordered(parent) && i < |parent|
    ensures forall x | x in Path(parent, i) :: x < |parent| && parent[x] != x && Find(parent, x) == Find(parent, i)
    decreases i
  {
    if parent[i] != i {
      PathShape(parent, parent[i]);
    }
  }

  /** `s` with every position named in `pool` set to `w`: the parents or headers after a loop's body is joined to header `w`. */
  function Redirected(s: seq<nat>, pool: seq<nat>, w: nat): (r: seq<nat>)
    ensures |r| == |s| && forall k | 0 <= k < |s| :: r[k] == if k in pool then w else s[k]
  {
    seq(|s|, k requires 0 <= k < |s| => if k in pool then w else s[k])
  }

  /** Redirecting one more position of the body. */
  lemma RedirectStep(s: seq<nat>, pool: seq<nat>, i: nat, w: nat)
    requires i < |pool| && pool[i] < |s|
    ensures Redirected(s, pool[..i + 1], w) == Redirected(s, pool[..i], w)[pool[i] := w]
  {
    assert pool[..i + 1] == pool[..i] + [pool[i]];
  }

  class UnionFindNodes {
    var parent: seq<nat>
    /** The block of each node; `None` for a node DFS never reached (a dead block). */
    var bb: seq<Option<nat>>
    /** The loop whose header this node is, once one has been created. */
    var loop: seq<Option<nat>>

    ghost predicate Valid()
      reads this`parent, this`bb, this`loop
    {
      |bb| == |parent| && |loop| == |parent| && Ordered(parent)
    }

    /** `nodes[i] = new(UnionFindNode)` for every DFS number of a graph of `size` blocks. */
    constructor (size: nat)
      ensures Valid() && |parent| == size
      ensures forall i | 0 <= i < size :: parent[i] == i && bb[i] == None && loop[i] == None
    {
      parent := seq(size, i => i);
      bb := seq(size, i => None);
      loop := seq(size, i => None);
    }

    /** Init: node `i` becomes a singleton set for block `block`, with no loop. */
    method Init(i: nat, block: nat)
      requires Valid() && i < |parent|
      modifies this
      ensures Valid()
      ensures parent == old(parent)[i := i] && bb == old(bb)[i := Some(block)]
      ensures loop == old(loop)[i := None]
    {
      parent := parent[i := i];
      bb := bb[i := Some(block)];
      loop := loop[i := None];
    }

    method SetLoop(i: nat, l: nat)
      requires Valid() && i < |parent|
      modifies this`loop
      ensures Valid() && parent == old(parent) && bb == old(bb)
      ensures loop == old(loop)[i := Some(l)]
    {
      loop := loop[i := Some(l)];
    }

    /**
     * FindSet: returns the self-parented representative of `u`; every node on
     * the walked path whose parent was not already the representative is
     * repointed at it, and no node's representative changes.
     */
    method FindSet(u: nat) returns (r: nat)
      requires Valid() && u < |parent|
      modifies this`parent
      ensures Valid() && |parent| == old(|parent|)
      ensures r == Find(old(parent), u) && parent[r] == r
      ensures forall k | 0 <= k < |parent| ::
        parent[k] == if k in Path(old(parent), u) then r else old(parent[k])
      ensures forall k | 0 <= k < |parent| :: Find(parent, k) == Find(old(parent), k)
    {
      var nodeList;
      PathShape(parent, u);
      r, nodeList := Walk(u);
      Compress(nodeList, r);
    }

    /**
     * The first loop of FindSet: follows parents from `u` to the
     * representative, collecting the nodes whose parent is not the
     * representative.
     */
    method Walk(u: nat) returns (r: nat, nodeList: seq<nat>)
      requires Valid() && u < |parent|
      ensures r == Find(parent, u)
      ensures forall x :: x in nodeList <==> x in Path(parent, u) && x < |parent| && parent[x] != r
    {
      ghost var walked: seq<nat> := [];
      nodeList := [];
      var node: nat := u;
      PathShape(parent, u);
      while node != parent[node]
        invariant node < |parent| && Find(parent, node) == Find(parent, u)
        invariant Path(parent, u) == walked + Path(parent, node)
        invariant forall x | x in walked :: x in Path(parent, u) && x < |parent|
        invariant forall x :: x in nodeList <==> x in walked && x < |parent| && parent[x] != Find(parent, u)
        decreases node
      {
        if parent[node] != parent[parent[node]] {
          nodeList := nodeList + [node];
        }
        walked := walked + [node];
        node := parent[node];
      }
      r := node;
      assert Path(parent, u) == walked;
    }

    /** The second loop of FindSet: repoints every collected node at the representative `r`. */
    method Compress(nodeList: seq<nat>, r: nat)
      requires Valid() && forall x | x in nodeList :: x < |parent| && Find(parent, x) == r
      modifies this`parent
      ensures Valid() && |parent| == old(|parent|)
      ensures forall k | 0 <= k < |parent| :: parent[k] == if k in nodeList then r else old(parent[k])
      ensures forall k | 0 <= k < |parent| :: Find(parent, k) == Find(old(parent), k)
    {
      var i := 0;
      while i < |nodeList|
        invariant 0 <= i <= |nodeList| && Valid() && |parent| == old(|parent|)
        invariant forall k | 0 <= k < |parent| :: Find(parent, k) == Find(old(parent), k)
        invariant forall k | 0 <= k < |parent| :: parent[k] == if k in nodeList[..i] then r else old(parent[k])
      {
        var x := nodeList[i];
        assert x in nodeList;
        CompressPreservesFind(parent, x);
        parent := parent[x := r];
        i := i + 1;
      }
      assert nodeList[..i] == nodeList;
    }

    /** Union: `u`'s parent becomes `b`; nothing else changes. */
    method Union(u: nat, b: nat)
      requires Valid() && u < |parent| && b <= u
      modifies this`parent
      ensures Valid() && bb == old(bb) && loop == old(loop)
      ensures parent == old(parent)[u := b]
    {
      parent := parent[u := b];
    }
  }
}
