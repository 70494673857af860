/**
 * What the collapse at the end of steps c-e does to the loop structure
 * graph: every node of the body either heads an inner loop, which becomes a
 * child of the new loop, or contributes its block as a member.  Stated over
 * the arena of loops and the union-find nodes' `bb` and `loop` slots, so the
 * finder's collapse loop can be proved against it, and the shape of the loop
 * forest it keeps is proved here once.
 */
module LoopCreation {
  import opened Options
  import opened Lsg
  import opened UnionFind

  /** Every body node has a block, and the loop it heads, if any, is in an arena of `n` loops. */
  ghost predicate Owners(pool: seq<nat>, loopOf: seq<Option<nat>>, bbOf: seq<Option<nat>>, n: nat)
  {
    forall i | 0 <= i < |pool| ::
      pool[i] < |loopOf| && pool[i] < |bbOf| && bbOf[pool[i]].Some? && (loopOf[pool[i]].Some? ==> loopOf[pool[i]].value < n)
  }

  /**
   * One body node collapsed into loop `l`: the loop `own` it heads gets `l`
   * as parent (and, when `link`, becomes one of `l`'s children), or else its
   * block `b` becomes a member of `l`.
   */
  function CollapseOne(store: seq<SimpleLoop>, l: nat, own: Option<nat>, b: nat, link: bool): (r: seq<SimpleLoop>)
    requires l < |store| && (own.Some? ==> own.value < |store|)
    ensures |r| == |store|
  {
    match own
    case Some(c) => if link then Linked(store, c, l) else store[c := store[c].(parent := Some(l))]
    case None => store[l := store[l].(basicBlocks := store[l].basicBlocks + {b})]
  }

  /** The body nodes collapsed into `l` in order. */
  function CollapseAll(store: seq<SimpleLoop>, l: nat, pool: seq<nat>, loopOf: seq<Option<nat>>, bbOf: seq<Option<nat>>,
                       link: bool): (r: seq<SimpleLoop>)
    requires l < |store| && Owners(pool, loopOf, bbOf, |store|)
    ensures |r| == |store|
  {
    if pool == [] then store
    else
      var x := pool[|pool| - 1];
      CollapseOne(CollapseAll(store, l, pool[..|pool| - 1], loopOf, bbOf, link), l, loopOf[x], bbOf[x].value, link)
  }

  /** The collapse changes no loop's header. */
  lemma {:induction false} CollapseKeepsHeaders(store: seq<SimpleLoop>, l: nat, pool: seq<nat>, loopOf: seq<Option<nat>>,
                                                bbOf: seq<Option<nat>>, link: bool)
    requires l < |store| && Owners(pool, loopOf, bbOf, |store|)
    ensures var r := CollapseAll(store, l, pool, loopOf, bbOf, link);
      forall c | 0 <= c < |store| :: r[c].header == store[c].header
  {
    if pool != [] {
      var pre := pool[..|pool| - 1];
      assert Owners(pre, loopOf, bbOf, |store|);
      CollapseKeepsHeaders(store, l, pre, loopOf, bbOf, link);
    }
  }

  /** The inner loops headed by body nodes. */
  function NestedLoops(pool: seq<nat>, loopOf: seq<Option<nat>>): set<nat>
    requires forall i | 0 <= i < |pool| :: pool[i] < |loopOf|
  {
    if pool == [] then {}
    else
      var x := pool[|pool| - 1];
      NestedLoops(pool[..|pool| - 1], loopOf) + if loopOf[x].Some? then {loopOf[x].value} else {}
  }

  /** The blocks of body nodes that head no loop. */
  function MemberBlocks(pool: seq<nat>, loopOf: seq<Option<nat>>, bbOf: seq<Option<nat>>): set<nat>
    requires forall i | 0 <= i < |pool| :: pool[i] < |loopOf| && pool[i] < |bbOf| && bbOf[pool[i]].Some?
  {
    if pool == [] then {}
    else
      var x := pool[|pool| - 1];
      MemberBlocks(pool[..|pool| - 1], loopOf, bbOf) + if loopOf[x].None? then {bbOf[x].value} else {}
  }

  /** The collapse over one more body node. */
  lemma CollapseStep(store: seq<SimpleLoop>, l: nat, pool: seq<nat>, i: nat, loopOf: seq<Option<nat>>,
                     bbOf: seq<Option<nat>>, link: bool)
    requires l < |store| && Owners(pool, loopOf, bbOf, |store|) && i < |pool|
    ensures Owners(pool[..i], loopOf, bbOf, |store|) && Owners(pool[..i + 1], loopOf, bbOf, |store|)
    ensures CollapseAll(store, l, pool[..i + 1], loopOf, bbOf, link)
      == CollapseOne(CollapseAll(store, l, pool[..i], loopOf, bbOf, link), l, loopOf[pool[i]], bbOf[pool[i]].value, link)
  {
    assert pool[..i + 1][..i] == pool[..i];
  }

  /**
   * The new loop gains exactly the member blocks (and, when linking, the
   * nested loops as children); each nested loop gets the new loop as parent;
   * every other loop is unchanged.
   */
  lemma {:induction false} CollapseAllShape(store: seq<SimpleLoop>, l: nat, pool: seq<nat>, loopOf: seq<Option<nat>>,
                                            bbOf: seq<Option<nat>>, link: bool)
    requires l < |store| && Owners(pool, loopOf, bbOf, |store|) && l !in NestedLoops(pool, loopOf)
    ensures var r := CollapseAll(store, l, pool, loopOf, bbOf, link);
      && r[l] == store[l].(basicBlocks := store[l].basicBlocks + MemberBlocks(pool, loopOf, bbOf),
                           children := store[l].children + if link then NestedLoops(pool, loopOf) else {})
      && forall c | 0 <= c < |store| && c != l ::
           r[c] == if c in NestedLoops(pool, loopOf) then store[c].(parent := Some(l)) else store[c]
  {
    if pool != [] {
      var pre := pool[..|pool| - 1];
      assert Owners(pre, loopOf, bbOf, |store|);
      CollapseAllShape(store, l, pre, loopOf, bbOf, link);
    }
  }

  /**
   * The loop structure graph the nesting pass can walk: a forest below the
   * root in which children sit below their parents and name them, parents
   * list their children when `both`, and the root is no orphan.
   */
  ghost predicate LoopForest(store: seq<SimpleLoop>, root: nat, loops: seq<nat>, both: bool)
  {
    && root < |store| && (forall i | 0 <= i < |loops| :: loops[i] < |store|)
    && Nested(KidsOf(store), root) && ChildrenKnowParent(store) && (both ==> ParentKnowsChild(store))
    && root !in Orphans(store, loops)
  }

  /**
   * Adopting parentless loops below the newest loop `l` keeps the arena a
   * forest the nesting pass can walk: children below their parents, each
   * child named by exactly one parent, and, when the adoption links both
   * ways, every parent lists its children.
   */
  lemma AdoptKeepsForest(s: seq<SimpleLoop>, r: seq<SimpleLoop>, root: nat, l: nat, kids: set<nat>, link: bool)
    requires Nested(KidsOf(s), root) && ChildrenKnowParent(s) && l == |s| - 1 && l != root && |r| == |s|
    requires s[l].children == {} && s[l].parent == None
    requires forall c | c in kids :: c < l && c != root && s[c].parent == None
    requires r[l].children == (if link then kids else {}) && r[l].parent == None
    requires forall c | 0 <= c < |s| && c != l :: r[c] == if c in kids then s[c].(parent := Some(l)) else s[c]
    ensures Nested(KidsOf(r), root) && ChildrenKnowParent(r)
    ensures link && ParentKnowsChild(s) ==> ParentKnowsChild(r)
  {
    forall p, c | 0 <= p < |r| && c in r[p].children
      ensures c < |r| && c != root && (p == root || c < p) && r[c].parent == Some(p)
    {
      if p != l {
        assert c in s[p].children;
      }
    }
    if link && ParentKnowsChild(s) {
      forall c | 0 <= c < |r| && r[c].parent.Some?
        ensures r[c].parent.value < |r| && c in r[r[c].parent.value].children
      {
        if c != l && c !in kids {
          assert r[c] == s[c];
        }
      }
    }
  }

  /** The root is never an orphan: adding the new loop `l` to the list changes nothing at the root. */
  lemma RootStaysListed(s: seq<SimpleLoop>, r: seq<SimpleLoop>, loops: seq<nat>, root: nat, l: nat)
    requires forall i | 0 <= i < |loops| :: loops[i] < |s|
    requires |r| == |s| && root < |s| && l < |s| && l != root && r[root] == s[root]
    requires root !in Orphans(s, loops)
    ensures root !in Orphans(r, loops + [l])
  {
  }

  /**
   * Which node owns which loop: a node's loop is a non-root loop of the
   * arena, a loop belongs to one node only, and a loop whose node is still
   * its own representative has no parent yet.
   */
  ghost predicate Owned(parent: seq<nat>, loopOf: seq<Option<nat>>, store: seq<SimpleLoop>, root: nat)
  {
    && |loopOf| == |parent|
    && (forall x | 0 <= x < |loopOf| && loopOf[x].Some? ::
          loopOf[x].value < |store| && loopOf[x].value != root && (parent[x] == x ==> store[loopOf[x].value].parent.None?))
    && (forall x, y | 0 <= x < |loopOf| && 0 <= y < |loopOf| && loopOf[x].Some? && loopOf[x] == loopOf[y] :: x == y)
  }

  /** A loop is nested exactly when some body node heads it. */
  lemma {:induction false} NestedLoopsOwner(pool: seq<nat>, loopOf: seq<Option<nat>>, c: nat)
    requires forall i | 0 <= i < |pool| :: pool[i] < |loopOf|
    ensures c in NestedLoops(pool, loopOf) <==> exists i | 0 <= i < |pool| :: loopOf[pool[i]] == Some(c)
  {
    if pool != [] {
      var pre := pool[..|pool| - 1];
      NestedLoopsOwner(pre, loopOf, c);
      if exists i | 0 <= i < |pool| :: loopOf[pool[i]] == Some(c) {
        var i :| 0 <= i < |pool| && loopOf[pool[i]] == Some(c);
        if i < |pool| - 1 {
          assert pre[i] == pool[i];
        }
      }
      if exists i | 0 <= i < |pre| :: loopOf[pre[i]] == Some(c) {
        var i :| 0 <= i < |pre| && loopOf[pre[i]] == Some(c);
        assert pool[i] == pre[i];
      }
    }
  }

  /** A block is a member exactly when some body node without a loop holds it. */
  lemma {:induction false} MemberBlocksHolder(pool: seq<nat>, loopOf: seq<Option<nat>>, bbOf: seq<Option<nat>>, b: nat)
    requires forall i | 0 <= i < |pool| :: pool[i] < |loopOf| && pool[i] < |bbOf| && bbOf[pool[i]].Some?
    ensures b in MemberBlocks(pool, loopOf, bbOf) <==>
      exists i | 0 <= i < |pool| :: loopOf[pool[i]].None? && bbOf[pool[i]] == Some(b)
  {
    if pool != [] {
      var pre := pool[..|pool| - 1];
      MemberBlocksHolder(pre, loopOf, bbOf, b);
      if exists i | 0 <= i < |pool| :: loopOf[pool[i]].None? && bbOf[pool[i]] == Some(b) {
        var i :| 0 <= i < |pool| && loopOf[pool[i]].None? && bbOf[pool[i]] == Some(b);
        if i < |pool| - 1 {
          assert pre[i] == pool[i];
        }
      }
      if exists i | 0 <= i < |pre| :: loopOf[pre[i]].None? && bbOf[pre[i]] == Some(b) {
        var i :| 0 <= i < |pre| && loopOf[pre[i]].None? && bbOf[pre[i]] == Some(b);
        assert pool[i] == pre[i];
      }
    }
  }

  /**
   * The collapse keeps ownership: header `w` now owns the new loop `l`,
   * body nodes stop being representatives, and every loop whose node is
   * still a representative keeps having no parent.
   */
  lemma OwnedAfterCollapse(p0: seq<nat>, p1: seq<nat>, loop0: seq<Option<nat>>, s0: seq<SimpleLoop>, r: seq<SimpleLoop>,
                           root: nat, w: nat, pool: seq<nat>)
    requires Owned(p0, loop0, s0, root) && root < |s0| && w < |p0| && p0[w] == w && |r| == |s0| + 1
    requires forall i | 0 <= i < |pool| :: pool[i] < |p0| && pool[i] != w && p0[pool[i]] == pool[i]
    requires p1 == Redirected(p0, pool, w)
    requires r[|s0|].parent == None
    requires forall c | 0 <= c < |s0| && c !in NestedLoops(pool, loop0) :: r[c] == s0[c]
    ensures Owned(p1, loop0[w := Some(|s0|)], r, root)
  {
    var l := |s0|;
    var loop1 := loop0[w := Some(l)];
    forall x | 0 <= x < |loop1| && loop1[x].Some?
      ensures loop1[x].value < |r| && loop1[x].value != root && (p1[x] == x ==> r[loop1[x].value].parent.None?)
    {
      if x != w && p1[x] == x {
        var c := loop0[x].value;
        assert x !in pool;
        NestedLoopsOwner(pool, loop0, c);
      }
    }
  }

  /** Collapsing reads the loop slots of the body nodes only. */
  lemma {:induction false} CollapseAllLocal(store: seq<SimpleLoop>, l: nat, pool: seq<nat>, loop0: seq<Option<nat>>,
                                            loop1: seq<Option<nat>>, bbOf: seq<Option<nat>>, link: bool)
    requires l < |store| && Owners(pool, loop0, bbOf, |store|) && |loop1| == |loop0|
    requires forall i | 0 <= i < |pool| :: loop1[pool[i]] == loop0[pool[i]]
    ensures Owners(pool, loop1, bbOf, |store|)
    ensures CollapseAll(store, l, pool, loop1, bbOf, link) == CollapseAll(store, l, pool, loop0, bbOf, link)
  {
    if pool != [] {
      var pre := pool[..|pool| - 1];
      assert Owners(pre, loop0, bbOf, |store|);
      CollapseAllLocal(store, l, pre, loop0, loop1, bbOf, link);
    }
  }

  /**
   * Creating loop `l`, the next in the arena, for header node `w` over the
   * body `pool` and collapsing the body into it keeps everything the nesting
   * pass relies on: the arena stays a forest below the root whose children
   * name their parents (and whose parents list their children when the
   * collapse links both ways), the root stays out of the orphans once `l` is
   * listed, and `w` owns `l` while the body nodes, now joined to `w`, keep
   * their loops.
   */
  lemma CreateKeepsForest(s0: seq<SimpleLoop>, made: SimpleLoop, pool: seq<nat>, loop0: seq<Option<nat>>,
                          bbOf: seq<Option<nat>>, link: bool, p0: seq<nat>, p1: seq<nat>, root: nat, loops: seq<nat>, w: nat)
    requires LoopForest(s0, root, loops, link)
    requires Owned(p0, loop0, s0, root) && w < |p0| && p0[w] == w
    requires made.children == {} && made.parent == None
    requires Owners(pool, loop0, bbOf, |s0|)
    requires forall i | 0 <= i < |pool| :: pool[i] < |p0| && pool[i] != w && p0[pool[i]] == pool[i]
    requires p1 == Redirected(p0, pool, w)
    ensures Owners(pool, loop0, bbOf, |s0| + 1)
    ensures var r := CollapseAll(s0 + [made], |s0|, pool, loop0, bbOf, link);
      && LoopForest(r, root, loops + [|s0|], link)
      && Owned(p1, loop0[w := Some(|s0|)], r, root)
  {
    var l := |s0|;
    var s1 := s0 + [made];
    var kids := NestedLoops(pool, loop0);
    assert Owners(pool, loop0, bbOf, |s1|);
    var r := CollapseAll(s1, l, pool, loop0, bbOf, link);
    forall c | c in kids
      ensures c < l && c != root && s1[c].parent == None
    {
      NestedLoopsOwner(pool, loop0, c);
    }
    CollapseAllShape(s1, l, pool, loop0, bbOf, link);
    assert Nested(KidsOf(s1), root) && ChildrenKnowParent(s1) by {
      forall p, c | 0 <= p < |s1| && c in s1[p].children
        ensures c < |s1| && c != root && (p == root || c < p) && s1[c].parent == Some(p)
      {
        assert p < l && s1[p] == s0[p] && c in KidsOf(s0)[p];
      }
    }
    if link && ParentKnowsChild(s0) {
      assert ParentKnowsChild(s1) by {
        forall c | 0 <= c < |s1| && s1[c].parent.Some?
          ensures s1[c].parent.value < |s1| && c in s1[s1[c].parent.value].children
        {
          assert c < l && s1[c] == s0[c];
        }
      }
    }
    AdoptKeepsForest(s1, r, root, l, kids, link);
    NestedLoopsOwner(pool, loop0, root);
    assert Orphans(s1, loops) == Orphans(s0, loops);
    RootStaysListed(s1, r, loops, root, l);
    OwnedAfterCollapse(p0, p1, loop0, s0, r, root, w, pool);
  }

  /** The arena indices `lo..hi-1`, in order. */
  function Span(lo: nat, hi: nat): (r: seq<nat>)
    requires lo <= hi
    ensures |r| == hi - lo && forall i | 0 <= i < |r| :: r[i] == lo + i
  {
    seq(hi - lo, i requires 0 <= i < hi - lo => lo + i)
  }

  /**
   * The loops from `from` on carry a header exactly when the port sets one
   * (all but C++), and a header is always a member of its own loop.
   */
  ghost predicate HeadersKept(store: seq<SimpleLoop>, from: nat, cpp: bool)
  {
    forall l | from <= l < |store| ::
      (store[l].header.Some? <==> !cpp) && (store[l].header.Some? ==> store[l].header.value in store[l].basicBlocks)
  }

  /**
   * The collapse never changes the header or the blocks of an older loop,
   * and leaves every loop no node owns exactly as it was; the new loop keeps
   * its header and gains blocks only.
   */
  lemma CollapseKeepsOlder(s0: seq<SimpleLoop>, made: SimpleLoop, pool: seq<nat>, loop0: seq<Option<nat>>,
                           bbOf: seq<Option<nat>>, link: bool, from: nat, cpp: bool)
    requires Owners(pool, loop0, bbOf, |s0|) && from <= |s0|
    requires forall x | 0 <= x < |loop0| && loop0[x].Some? :: from <= loop0[x].value < |s0|
    requires made.children == {} && (made.header.Some? <==> !cpp) && (made.header.Some? ==> made.header.value in made.basicBlocks)
    requires HeadersKept(s0, from, cpp)
    ensures Owners(pool, loop0, bbOf, |s0| + 1)
    ensures var r := CollapseAll(s0 + [made], |s0|, pool, loop0, bbOf, link);
      && r[..from] == s0[..from] && HeadersKept(r, from, cpp)
      && r[|s0|].counter == made.counter && forall c | 0 <= c < |s0| :: r[c].counter == s0[c].counter
  {
    var l := |s0|;
    assert Owners(pool, loop0, bbOf, l + 1);
    var r := CollapseAll(s0 + [made], l, pool, loop0, bbOf, link);
    NestedLoopsOwner(pool, loop0, l);
    CollapseAllShape(s0 + [made], l, pool, loop0, bbOf, link);
    forall c | 0 <= c < from
      ensures r[c] == s0[c]
    {
      NestedLoopsOwner(pool, loop0, c);
    }
    assert r[..from] == s0[..from];
  }
}
