/**
 * The loop structure graph (LSG): loop descriptors (SimpleLoop) with their
 * member blocks, parent and children, and a root loop.  Loops live in an
 * arena `store` owned by the graph; a `*SimpleLoop` of the source is an index
 * into it, and a setter on a loop is a method of the graph that rewrites one
 * record.
 */
module Lsg {
  import opened Options

  datatype SimpleLoop = SimpleLoop(
    basicBlocks: set<nat>,
    children: set<nat>,
    parent: Option<nat>,
    header: Option<nat>,
    isRoot: bool,
    isReducible: bool,
    counter: nat,
    nestingLevel: nat,
    depthLevel: nat)

  /** A loop as NewLoop / CreateNewLoop makes it, numbered `counter`. */
  function FreshLoop(counter: nat, isReducible: bool): SimpleLoop
  {
    SimpleLoop({}, {}, None, None, false, isReducible, counter, 0, 0)
  }

  /** The process-wide `loopCounter` of the Go ports, made an explicit object. */
  class LoopCounter {
    var value: nat

    constructor ()
      ensures value == 0
    {
      value := 0;
    }
  }

  /** `max` of lsg.go and `LSG.max` of the JavaScript port. */
  function Max(x: int, y: int): (m: int)
    ensures m >= x && m >= y && (m == x || m == y)
  {
    if x > y then x else y
  }

  /** Every loop index stored in `loop` names a loop of an arena of `n` loops. */
  ghost predicate InArena(loop: SimpleLoop, n: nat)
  {
    (forall c | c in loop.children :: c < n) && (loop.parent.Some? ==> loop.parent.value < n)
  }

  /** The children sets of the arena, the only part of it the nesting recursion follows. */
  function KidsOf(store: seq<SimpleLoop>): (kids: seq<set<nat>>)
    ensures |kids| == |store| && forall i | 0 <= i < |store| :: kids[i] == store[i].children
  {
    seq(|store|, i requires 0 <= i < |store| => store[i].children)
  }

  /**
   * The recursion of the nesting pass terminates: a child has a smaller index
   * than its parent (loops are created innermost first), except below the
   * root, and the root is nobody's child.
   */
  ghost predicate Nested(kids: seq<set<nat>>, root: nat)
  {
    && root < |kids|
    && forall p, c | 0 <= p < |kids| && c in kids[p] :: c < |kids| && c != root && (p == root || c < p)
  }

  function Rank(n: nat, root: nat, l: nat): nat
  {
    if l == root then n else l
  }

  /** The loops the nesting pass visits from `l`: `l` and, recursively, its children. */
  ghost function Subtree(kids: seq<set<nat>>, root: nat, l: nat): (s: set<nat>)
    requires Nested(kids, root) && l < |kids|
    ensures l in s && forall x | x in s :: x < |kids|
    decreases Rank(|kids|, root, l)
  {
    {l} + (set c, x | c in kids[l] && x in Subtree(kids, root, c) :: x)
  }

  /** A loop is the child of at most one loop. */
  ghost predicate Tree(kids: seq<set<nat>>)
  {
    forall p, q, c | 0 <= p < |kids| && 0 <= q < |kids| && c in kids[p] && c in kids[q] :: p == q
  }

  /** The subtree of a child lies inside the subtree of its parent, strictly below it in rank. */
  lemma SubtreeOfChild(kids: seq<set<nat>>, root: nat, l: nat, c: nat)
    requires Nested(kids, root) && l < |kids| && c in kids[l]
    ensures c < |kids| && Subtree(kids, root, c) <= Subtree(kids, root, l)
    ensures Rank(|kids|, root, c) < Rank(|kids|, root, l)
  {
  }

  /** Every loop of a subtree ranks no higher than the subtree's top, and only the top is the root. */
  lemma {:induction false} SubtreeRank(kids: seq<set<nat>>, root: nat, l: nat, x: nat)
    requires Nested(kids, root) && l < |kids| && x in Subtree(kids, root, l)
    ensures Rank(|kids|, root, x) <= Rank(|kids|, root, l)
    ensures x != l ==> x != root && Rank(|kids|, root, x) < Rank(|kids|, root, l)
    decreases Rank(|kids|, root, l)
  {
    if x != l {
      var c :| c in kids[l] && x in Subtree(kids, root, c);
      SubtreeRank(kids, root, c, x);
    }
  }

  /** A loop strictly inside a subtree is the child of some loop of that subtree. */
  lemma {:induction false} SubtreeHasParent(kids: seq<set<nat>>, root: nat, l: nat, x: nat) returns (p: nat)
    requires Nested(kids, root) && l < |kids| && x in Subtree(kids, root, l) && x != l
    ensures p < |kids| && p in Subtree(kids, root, l) && x in kids[p]
    decreases Rank(|kids|, root, l)
  {
    var c :| c in kids[l] && x in Subtree(kids, root, c);
    SubtreeOfChild(kids, root, l, c);
    if x == c {
      p := l;
    } else {
      p := SubtreeHasParent(kids, root, c, x);
    }
  }

  /** Subtrees are closed under children. */
  lemma {:induction false} SubtreeClosed(kids: seq<set<nat>>, root: nat, l: nat, p: nat, c: nat)
    requires Nested(kids, root) && l < |kids| && p in Subtree(kids, root, l) && c in kids[p]
    ensures c in Subtree(kids, root, l)
    decreases Rank(|kids|, root, l)
  {
    if p == l {
      SubtreeOfChild(kids, root, l, c);
    } else {
      var d :| d in kids[l] && p in Subtree(kids, root, d);
      SubtreeOfChild(kids, root, l, d);
      SubtreeClosed(kids, root, d, p, c);
    }
  }

  /** In a tree, two subtrees that share a loop are nested one in the other. */
  lemma {:induction false} SubtreesOverlap(kids: seq<set<nat>>, root: nat, a: nat, b: nat, x: nat)
    requires Nested(kids, root) && Tree(kids) && a < |kids| && b < |kids|
    requires x in Subtree(kids, root, a) && x in Subtree(kids, root, b)
    ensures a in Subtree(kids, root, b) || b in Subtree(kids, root, a)
    decreases Rank(|kids|, root, a) + Rank(|kids|, root, b)
  {
    if x != a && x != b {
      var a' :| a' in kids[a] && x in Subtree(kids, root, a');
      var b' :| b' in kids[b] && x in Subtree(kids, root, b');
      SubtreeOfChild(kids, root, a, a');
      SubtreeOfChild(kids, root, b, b');
      SubtreesOverlap(kids, root, a', b', x);
      if a' in Subtree(kids, root, b') {
        if a' != b' {
          var p := SubtreeHasParent(kids, root, b', a');
          assert p == a;
        }
      } else {
        if a' != b' {
          var p := SubtreeHasParent(kids, root, a', b');
          assert p == b;
        }
      }
    }
  }

  /** The subtrees of two different children of one loop are disjoint, and neither holds the parent. */
  lemma SiblingSubtrees(kids: seq<set<nat>>, root: nat, l: nat, c: nat, d: nat)
    requires Nested(kids, root) && Tree(kids) && l < |kids| && c in kids[l] && d in kids[l]
    ensures l !in Subtree(kids, root, c)
    ensures c != d ==> Subtree(kids, root, c) !! Subtree(kids, root, d)
  {
    SubtreeOfChild(kids, root, l, c);
    SubtreeOfChild(kids, root, l, d);
    if l in Subtree(kids, root, c) {
      SubtreeRank(kids, root, c, l);
    }
    if l in Subtree(kids, root, d) {
      SubtreeRank(kids, root, d, l);
    }
    if c != d && !(Subtree(kids, root, c) !! Subtree(kids, root, d)) {
      var x :| x in Subtree(kids, root, c) && x in Subtree(kids, root, d);
      SubtreesOverlap(kids, root, c, d, x);
      // the loop above c (or d) inside the other subtree would have to be l
      if c in Subtree(kids, root, d) {
        var p := SubtreeHasParent(kids, root, d, c);
      } else {
        var p := SubtreeHasParent(kids, root, c, d);
      }
    }
  }

  /** Children sets name their loop's parent: a loop is the child of at most one loop. */
  ghost predicate ChildrenKnowParent(store: seq<SimpleLoop>)
  {
    forall p, c | 0 <= p < |store| && c in store[p].children ::
      c < |store| && store[c].parent == Some(p)
  }

  /** And conversely: a loop with a parent is among that parent's children. */
  ghost predicate ParentKnowsChild(store: seq<SimpleLoop>)
  {
    forall c | 0 <= c < |store| && store[c].parent.Some? ::
      store[c].parent.value < |store| && c in store[store[c].parent.value].children
  }

  /** The arena after SetParent(l, p): `l` names `p` as parent and `p` counts `l` among its children. */
  function Linked(store: seq<SimpleLoop>, l: nat, p: nat): (r: seq<SimpleLoop>)
    requires l < |store| && p < |store|
    ensures |r| == |store| && r[l].parent == Some(p) && r[p].children == store[p].children + {l}
  {
    var s := store[l := store[l].(parent := Some(p))];
    s[p := s[p].(children := s[p].children + {l})]
  }

  /** The listed loops the first loop of CalculateNestingLevel hangs under the root: not marked root and without a parent. */
  ghost function Orphans(store: seq<SimpleLoop>, loops: seq<nat>): set<nat>
    requires forall i | 0 <= i < |loops| :: loops[i] < |store|
  {
    set i | 0 <= i < |loops| && !store[loops[i]].isRoot && store[loops[i]].parent.None? :: loops[i]
  }

  /** The arena after that first loop: every orphan has the root as parent and is one of its children. */
  ghost function Attached(store: seq<SimpleLoop>, loops: seq<nat>, root: nat): (r: seq<SimpleLoop>)
    requires root < |store| && forall i | 0 <= i < |loops| :: loops[i] < |store|
    ensures |r| == |store|
  {
    var orphans := Orphans(store, loops);
    seq(|store|, x requires 0 <= x < |store| =>
      var loop := if x in orphans then store[x].(parent := Some(root)) else store[x];
      if x == root then loop.(children := loop.children + orphans) else loop)
  }

  /** Before the first turn nothing is attached. */
  lemma AttachNone(start: seq<SimpleLoop>, root: nat)
    requires root < |start|
    ensures Attached(start, [], root) == start
  {
    assert Orphans(start, []) == {};
    assert start[root].(children := start[root].children + {}) == start[root];
  }

  /** One turn of that loop: the next listed loop is linked to the root exactly when it is an orphan. */
  lemma AttachStep(start: seq<SimpleLoop>, pre: seq<nat>, root: nat, l: nat)
    requires root < |start| && l < |start| && forall i | 0 <= i < |pre| :: pre[i] < |start|
    ensures var cur := Attached(start, pre, root);
      Attached(start, pre + [l], root)
        == if !cur[l].isRoot && cur[l].parent.None? then Linked(cur, l, root) else cur
  {
    var cur := Attached(start, pre, root);
    var next := Attached(start, pre + [l], root);
    var o := Orphans(start, pre);
    var o' := Orphans(start, pre + [l]);
    assert o' == o + (if !start[l].isRoot && start[l].parent.None? then {l} else {}) by {
      forall x | x in o' ensures x in o + (if !start[l].isRoot && start[l].parent.None? then {l} else {}) {
        var i :| 0 <= i < |pre| + 1 && (pre + [l])[i] == x && !start[x].isRoot && start[x].parent.None?;
        if i < |pre| { assert pre[i] == x; }
      }
      forall x | x in o ensures x in o' {
        var i :| 0 <= i < |pre| && pre[i] == x && !start[x].isRoot && start[x].parent.None?;
        assert (pre + [l])[i] == x;
      }
      if !start[l].isRoot && start[l].parent.None? {
        assert (pre + [l])[|pre|] == l;
      }
    }
    if !cur[l].isRoot && cur[l].parent.None? {
      assert l !in o && o' == o + {l};
      assert next == Linked(cur, l, root) by {
        forall x | 0 <= x < |start| ensures next[x] == Linked(cur, l, root)[x] { }
      }
    } else {
      assert o' == o;
    }
  }

  /** Where children sets name their loop's parent, the children sets form a forest. */
  lemma ChildrenKnowParentTree(store: seq<SimpleLoop>)
    requires ChildrenKnowParent(store)
    ensures Tree(KidsOf(store))
  {
    forall p, q, c | 0 <= p < |store| && 0 <= q < |store| && c in KidsOf(store)[p] && c in KidsOf(store)[q]
      ensures p == q
    {
      assert KidsOf(store)[p] == store[p].children && KidsOf(store)[q] == store[q].children;
      assert c < |store| && store[c].parent == Some(p);
      assert store[c].parent == Some(q);
    }
  }

  /**
   * Attaching the orphans to the root keeps the children sets nested and
   * naming their parents, and leaves no listed loop except one marked root
   * without a parent.
   */
  lemma AttachedShape(store: seq<SimpleLoop>, loops: seq<nat>, root: nat)
    requires forall i | 0 <= i < |loops| :: loops[i] < |store|
    requires Nested(KidsOf(store), root) && ChildrenKnowParent(store) && root !in Orphans(store, loops)
    ensures var a := Attached(store, loops, root);
      && Nested(KidsOf(a), root) && ChildrenKnowParent(a) && Tree(KidsOf(a))
      && (forall i | 0 <= i < |loops| && !a[loops[i]].isRoot :: a[loops[i]].parent.Some?)
  {
    var a := Attached(store, loops, root);
    var o := Orphans(store, loops);
    forall p, c | 0 <= p < |a| && c in KidsOf(a)[p]
      ensures c < |a| && c != root && (p == root || c < p)
    {
      if c !in store[p].children {
        assert p == root && c in o;
      }
    }
    forall p, c | 0 <= p < |a| && c in a[p].children
      ensures c < |a| && a[c].parent == Some(p)
    {
      if c in store[p].children {
        assert store[c].parent == Some(p);
      } else {
        assert p == root && c in o;
      }
    }
    ChildrenKnowParentTree(a);
    forall i | 0 <= i < |loops| && !a[loops[i]].isRoot
      ensures a[loops[i]].parent.Some?
    {
      if store[loops[i]].parent.None? {
        assert loops[i] in o;
      }
    }
  }

  /** Attaching keeps every parent field mirrored in its parent's children set. */
  lemma AttachedKeepsParentKnowsChild(store: seq<SimpleLoop>, loops: seq<nat>, root: nat)
    requires root < |store| && forall i | 0 <= i < |loops| :: loops[i] < |store|
    requires ParentKnowsChild(store)
    ensures ParentKnowsChild(Attached(store, loops, root))
  {
  }

  /**
   * Where every loop but the root has a parent that lists it as a child,
   * the nesting pass from the root reaches every loop.
   */
  lemma {:induction false} ReachedFromRoot(store: seq<SimpleLoop>, root: nat, x: nat)
    requires Nested(KidsOf(store), root) && ParentKnowsChild(store) && x < |store|
    requires forall y | 0 <= y < |store| && y != root :: store[y].parent.Some?
    ensures x in Subtree(KidsOf(store), root, root)
    decreases |store| - Rank(|store|, root, x)
  {
    if x != root {
      var p := store[x].parent.value;
      assert x in KidsOf(store)[p];
      ReachedFromRoot(store, root, p);
      SubtreeClosed(KidsOf(store), root, root, p, x);
    }
  }

  /** A loop that is nobody's child is never reached by the nesting pass from the root. */
  lemma Unreached(kids: seq<set<nat>>, root: nat, x: nat)
    requires Nested(kids, root) && x != root && forall p | 0 <= p < |kids| :: x !in kids[p]
    ensures x !in Subtree(kids, root, root)
  {
    if x in Subtree(kids, root, root) {
      var p := SubtreeHasParent(kids, root, root, x);
    }
  }

  /** Two records that differ at most in their nesting and depth levels. */
  ghost predicate SameButLevels(a: SimpleLoop, b: SimpleLoop)
  {
    a == b.(nestingLevel := a.nestingLevel, depthLevel := a.depthLevel)
  }

  /**
   * What calculateNestingLevel(l, depth) of the Go ports does, from arena
   * `before` to arena `after` (the children sets `kids` are not changed):
   * `l` gets depth `depth`; below it each child has its parent's depth plus
   * one, and its nesting level becomes max(parent's level, own level + 1),
   * both levels as they were before the pass; `l`'s own nesting level and
   * every loop outside the subtree are left alone.
   */
  ghost predicate ChildLevels(before: seq<SimpleLoop>, after: seq<SimpleLoop>, kids: seq<set<nat>>, root: nat, l: nat, depth: nat)
    requires Nested(kids, root) && l < |kids| && |before| == |kids| && |after| == |kids|
  {
    && after[l].depthLevel == depth && after[l].nestingLevel == before[l].nestingLevel
    && (forall p, c | p in Subtree(kids, root, l) && c in kids[p] ::
          && after[c].depthLevel == after[p].depthLevel + 1
          && after[c].nestingLevel == Max(before[p].nestingLevel, before[c].nestingLevel + 1))
    && (forall x | 0 <= x < |kids| && x !in Subtree(kids, root, l) :: after[x] == before[x])
    && (forall x | 0 <= x < |kids| :: SameButLevels(after[x], before[x]))
  }

  lemma SameKids(a: seq<SimpleLoop>, b: seq<SimpleLoop>)
    requires |a| == |b| && forall x | 0 <= x < |a| :: SameButLevels(a[x], b[x])
    ensures KidsOf(a) == KidsOf(b)
  {
    assert forall x | 0 <= x < |a| :: KidsOf(a)[x] == KidsOf(b)[x];
  }

  /**
   * Bookkeeping of a pass over the children of `l`: the children in `done`
   * have been visited, and `covered` is the union of their subtrees.
   */
  ghost predicate Coverage(kids: seq<set<nat>>, root: nat, l: nat, done: set<nat>, covered: set<nat>)
    requires Nested(kids, root) && l < |kids|
  {
    && done <= kids[l]
    && l !in covered
    && (forall x | x in covered :: x < |kids| && x in Subtree(kids, root, l))
    && (forall p, q | p in covered && q in kids[p] :: q in covered)
    && (forall d, x | d in done && x in Subtree(kids, root, d) :: x in covered)
    && (forall c, x | c in kids[l] && c !in done && x in Subtree(kids, root, c) :: x !in covered)
  }

  /** The state of the Go pass at `l` after the children in `done` have been handled. */
  ghost predicate ChildLevelsSoFar(start: seq<SimpleLoop>, cur: seq<SimpleLoop>, kids: seq<set<nat>>, root: nat,
                                   l: nat, depth: nat, done: set<nat>, covered: set<nat>)
    requires Nested(kids, root) && l < |kids| && |start| == |kids| && |cur| == |kids|
  {
    && Coverage(kids, root, l, done, covered)
    && cur[l] == start[l].(depthLevel := depth)
    && (forall x | 0 <= x < |kids| :: SameButLevels(cur[x], start[x]))
    && (forall x | 0 <= x < |kids| && x != l && x !in covered :: cur[x] == start[x])
    && (forall c | c in done ::
          cur[c].depthLevel == depth + 1 && cur[c].nestingLevel == Max(start[l].nestingLevel, start[c].nestingLevel + 1))
    && (forall p, q | p in covered && q in kids[p] ::
          && cur[q].depthLevel == cur[p].depthLevel + 1
          && cur[q].nestingLevel == Max(start[p].nestingLevel, start[q].nestingLevel + 1))
  }

  lemma ChildLevelsStart(start: seq<SimpleLoop>, cur: seq<SimpleLoop>, kids: seq<set<nat>>, root: nat, l: nat, depth: nat)
    requires Nested(kids, root) && l < |kids| && |start| == |kids| && KidsOf(start) == kids
    requires cur == start[l := start[l].(depthLevel := depth)]
    ensures KidsOf(cur) == kids && ChildLevelsSoFar(start, cur, kids, root, l, depth, {}, {})
  {
    SameKids(cur, start);
  }

  /** The child `c` about to be visited: its subtree lies below `l`, and `c` heads it. */
  lemma StepSubtree(kids: seq<set<nat>>, root: nat, l: nat, c: nat)
    requires Nested(kids, root) && Tree(kids) && l < |kids| && c in kids[l]
    ensures c < |kids| && c in Subtree(kids, root, c) && l !in Subtree(kids, root, c)
    ensures forall x | x in Subtree(kids, root, c) :: x in Subtree(kids, root, l)
    ensures forall p | p in Subtree(kids, root, c) :: c !in kids[p]
  {
    SiblingSubtrees(kids, root, l, c, c);
    SubtreeOfChild(kids, root, l, c);
  }

  /** Visiting `c` keeps the sibling subtrees not yet visited apart from what is covered. */
  lemma StepSiblings(kids: seq<set<nat>>, root: nat, l: nat, done: set<nat>, covered: set<nat>, c: nat)
    requires Nested(kids, root) && Tree(kids) && l < |kids| && c in kids[l]
    requires forall e, x | e in kids[l] && e !in done && x in Subtree(kids, root, e) :: x !in covered
    ensures forall e, x | e in kids[l] && e !in done + {c} && x in Subtree(kids, root, e) :: x !in covered + Subtree(kids, root, c)
  {
    forall e, x | e in kids[l] && e !in done + {c} && x in Subtree(kids, root, e)
      ensures x !in covered + Subtree(kids, root, c)
    {
      SiblingSubtrees(kids, root, l, c, e);
    }
  }

  /** What the pass at `l` has not reached yet still holds its record from `start`. */
  lemma StepUntouched(start: seq<SimpleLoop>, mid: seq<SimpleLoop>, kids: seq<set<nat>>, root: nat, l: nat,
                      done: set<nat>, covered: set<nat>, c: nat)
    requires Nested(kids, root) && Tree(kids) && l < |kids| && |start| == |kids| && |mid| == |kids|
    requires c in kids[l] && c !in done
    requires Coverage(kids, root, l, done, covered)
    requires forall x | 0 <= x < |kids| && x != l && x !in covered :: mid[x] == start[x]
    ensures forall x | x in Subtree(kids, root, c) :: x != l && x !in covered && mid[x] == start[x]
  {
    StepSubtree(kids, root, l, c);
  }

  lemma StepFrame(start: seq<SimpleLoop>, mid: seq<SimpleLoop>, after: seq<SimpleLoop>, final: seq<SimpleLoop>,
                  kids: seq<set<nat>>, root: nat, l: nat, depth: nat, done: set<nat>, covered: set<nat>, c: nat)
    requires Nested(kids, root) && Tree(kids) && l < |kids| && |start| == |kids| && |mid| == |kids| && |after| == |kids|
    requires c in kids[l] && c !in done
    requires ChildLevelsSoFar(start, mid, kids, root, l, depth, done, covered)
    requires ChildLevels(mid, after, kids, root, c, depth + 1)
    requires final == after[c := after[c].(nestingLevel := Max(after[l].nestingLevel, after[c].nestingLevel + 1))]
    ensures final[l] == start[l].(depthLevel := depth)
    ensures forall x | 0 <= x < |kids| :: SameButLevels(final[x], start[x])
    ensures forall x | 0 <= x < |kids| && x != l && x !in covered + Subtree(kids, root, c) :: final[x] == start[x]
  {
    StepSubtree(kids, root, l, c);
    forall x | 0 <= x < |kids|
      ensures SameButLevels(final[x], start[x])
    {
      assert SameButLevels(mid[x], start[x]) && SameButLevels(after[x], mid[x]);
    }
  }

  lemma StepTop(start: seq<SimpleLoop>, mid: seq<SimpleLoop>, after: seq<SimpleLoop>, final: seq<SimpleLoop>,
                kids: seq<set<nat>>, root: nat, l: nat, depth: nat, done: set<nat>, covered: set<nat>, c: nat)
    requires Nested(kids, root) && Tree(kids) && l < |kids| && |start| == |kids| && |mid| == |kids| && |after| == |kids|
    requires c in kids[l] && c !in done
    requires ChildLevelsSoFar(start, mid, kids, root, l, depth, done, covered)
    requires ChildLevels(mid, after, kids, root, c, depth + 1)
    requires final == after[c := after[c].(nestingLevel := Max(after[l].nestingLevel, after[c].nestingLevel + 1))]
    ensures forall d | d in done + {c} ::
      final[d].depthLevel == depth + 1 && final[d].nestingLevel == Max(start[l].nestingLevel, start[d].nestingLevel + 1)
  {
    StepSubtree(kids, root, l, c);
    StepUntouched(start, mid, kids, root, l, done, covered, c);
    assert after[l] == mid[l];
    forall d | d in done
      ensures final[d] == mid[d]
    {
      assert d in Subtree(kids, root, d);
    }
  }

  /** Below the child just visited, the recursive call set every edge as the pass specifies. */
  lemma StepEdgesBelow(start: seq<SimpleLoop>, mid: seq<SimpleLoop>, after: seq<SimpleLoop>, final: seq<SimpleLoop>,
                       kids: seq<set<nat>>, root: nat, depth: nat, c: nat, level: nat)
    requires Nested(kids, root) && c < |kids| && |start| == |kids| && |mid| == |kids| && |after| == |kids|
    requires forall x | x in Subtree(kids, root, c) :: mid[x] == start[x]
    requires forall p | p in Subtree(kids, root, c) :: c !in kids[p]
    requires ChildLevels(mid, after, kids, root, c, depth)
    requires final == after[c := after[c].(nestingLevel := level)]
    ensures forall p, q | p in Subtree(kids, root, c) && q in kids[p] ::
          && final[q].depthLevel == final[p].depthLevel + 1
          && final[q].nestingLevel == Max(start[p].nestingLevel, start[q].nestingLevel + 1)
  {
    forall p, q | p in Subtree(kids, root, c) && q in kids[p]
      ensures final[q].depthLevel == final[p].depthLevel + 1
      ensures final[q].nestingLevel == Max(start[p].nestingLevel, start[q].nestingLevel + 1)
    {
      SubtreeClosed(kids, root, c, p, q);
      assert q != c;
    }
  }

  /** Inside the subtrees covered earlier, the visit of `c` changed nothing. */
  lemma StepEdgesCovered(start: seq<SimpleLoop>, mid: seq<SimpleLoop>, after: seq<SimpleLoop>, final: seq<SimpleLoop>,
                         kids: seq<set<nat>>, root: nat, covered: set<nat>, c: nat, level: nat)
    requires Nested(kids, root) && c < |kids| && |start| == |kids| && |mid| == |kids| && |after| == |kids|
    requires forall x | x in covered :: x < |kids|
    requires forall p, q | p in covered && q in kids[p] :: q in covered
    requires forall p, q | p in covered && q in kids[p] ::
          && mid[q].depthLevel == mid[p].depthLevel + 1
          && mid[q].nestingLevel == Max(start[p].nestingLevel, start[q].nestingLevel + 1)
    requires forall x | x in Subtree(kids, root, c) :: x !in covered
    requires forall x | 0 <= x < |kids| && x !in Subtree(kids, root, c) :: after[x] == mid[x]
    requires final == after[c := after[c].(nestingLevel := level)]
    ensures forall p, q | p in covered && q in kids[p] ::
          && final[q].depthLevel == final[p].depthLevel + 1
          && final[q].nestingLevel == Max(start[p].nestingLevel, start[q].nestingLevel + 1)
  {
    assert c in Subtree(kids, root, c);
  }

  lemma StepEdges(start: seq<SimpleLoop>, mid: seq<SimpleLoop>, after: seq<SimpleLoop>, final: seq<SimpleLoop>,
                  kids: seq<set<nat>>, root: nat, l: nat, depth: nat, done: set<nat>, covered: set<nat>, c: nat)
    requires Nested(kids, root) && Tree(kids) && l < |kids| && |start| == |kids| && |mid| == |kids| && |after| == |kids|
    requires c in kids[l] && c !in done
    requires ChildLevelsSoFar(start, mid, kids, root, l, depth, done, covered)
    requires ChildLevels(mid, after, kids, root, c, depth + 1)
    requires final == after[c := after[c].(nestingLevel := Max(after[l].nestingLevel, after[c].nestingLevel + 1))]
    ensures forall p, q | p in covered + Subtree(kids, root, c) && q in kids[p] ::
          && final[q].depthLevel == final[p].depthLevel + 1
          && final[q].nestingLevel == Max(start[p].nestingLevel, start[q].nestingLevel + 1)
  {
    var level := Max(after[l].nestingLevel, after[c].nestingLevel + 1);
    StepSubtree(kids, root, l, c);
    StepUntouched(start, mid, kids, root, l, done, covered, c);
    StepEdgesBelow(start, mid, after, final, kids, root, depth + 1, c, level);
    StepEdgesCovered(start, mid, after, final, kids, root, covered, c, level);
  }

  /** After visiting `c`, the covered loops are the subtrees of `done + {c}`. */
  lemma StepCover(kids: seq<set<nat>>, root: nat, l: nat, done: set<nat>, covered: set<nat>, c: nat)
    requires Nested(kids, root) && Tree(kids) && l < |kids| && c in kids[l] && c !in done
    requires Coverage(kids, root, l, done, covered)
    ensures Coverage(kids, root, l, done + {c}, covered + Subtree(kids, root, c))
  {
    StepSubtree(kids, root, l, c);
    forall p, q | p in Subtree(kids, root, c) && q in kids[p]
      ensures q in Subtree(kids, root, c)
    {
      SubtreeClosed(kids, root, c, p, q);
    }
    forall d, x | d in done + {c} && x in Subtree(kids, root, d)
      ensures x in covered + Subtree(kids, root, c)
    {
      if d != c {
        assert d in done;
      }
    }
    StepSiblings(kids, root, l, done, covered, c);
  }

  lemma ChildLevelsStep(start: seq<SimpleLoop>, mid: seq<SimpleLoop>, after: seq<SimpleLoop>, final: seq<SimpleLoop>,
                        kids: seq<set<nat>>, root: nat, l: nat, depth: nat, done: set<nat>, covered: set<nat>, c: nat)
    requires Nested(kids, root) && Tree(kids) && l < |kids| && |start| == |kids| && |mid| == |kids| && |after| == |kids|
    requires KidsOf(start) == kids && c in kids[l] && c !in done
    requires ChildLevelsSoFar(start, mid, kids, root, l, depth, done, covered)
    requires ChildLevels(mid, after, kids, root, c, depth + 1)
    requires final == after[c := after[c].(nestingLevel := Max(after[l].nestingLevel, after[c].nestingLevel + 1))]
    ensures |final| == |kids| && KidsOf(final) == kids
    ensures ChildLevelsSoFar(start, final, kids, root, l, depth, done + {c}, covered + Subtree(kids, root, c))
  {
    StepCover(kids, root, l, done, covered, c);
    StepFrame(start, mid, after, final, kids, root, l, depth, done, covered, c);
    StepTop(start, mid, after, final, kids, root, l, depth, done, covered, c);
    StepEdges(start, mid, after, final, kids, root, l, depth, done, covered, c);
    SameKids(final, start);
  }

  lemma ChildLevelsDone(start: seq<SimpleLoop>, cur: seq<SimpleLoop>, kids: seq<set<nat>>, root: nat, l: nat, depth: nat, covered: set<nat>)
    requires Nested(kids, root) && l < |kids| && |start| == |kids| && |cur| == |kids|
    requires ChildLevelsSoFar(start, cur, kids, root, l, depth, kids[l], covered)
    ensures ChildLevels(start, cur, kids, root, l, depth)
  {
    forall p, c | p in Subtree(kids, root, l) && c in kids[p]
      ensures cur[c].depthLevel == cur[p].depthLevel + 1
      ensures cur[c].nestingLevel == Max(start[p].nestingLevel, start[c].nestingLevel + 1)
    {
      if p != l {
        var d :| d in kids[l] && p in Subtree(kids, root, d);
      }
    }
  }

  /**
   * The nesting level the parent-update pass gives loop `p`: the larger of
   * its level in `before` and one more than the level it gives each child.
   */
  ghost function Height(before: seq<SimpleLoop>, kids: seq<set<nat>>, root: nat, p: nat): nat
    requires Nested(kids, root) && p < |kids| && |before| == |kids|
    decreases Rank(|kids|, root, p), 1, 0
  {
    Max(before[p].nestingLevel, KidsHeight(before, kids, root, p, kids[p]))
  }

  /** The largest of one more than Height(c), over the children `cs` of `p` (0 when there are none). */
  ghost function KidsHeight(before: seq<SimpleLoop>, kids: seq<set<nat>>, root: nat, p: nat, cs: set<nat>): nat
    requires Nested(kids, root) && p < |kids| && |before| == |kids| && cs <= kids[p]
    decreases Rank(|kids|, root, p), 0, |cs|
  {
    if cs == {} then 0
    else
      var c :| c in cs;
      Max(Height(before, kids, root, c) + 1, KidsHeight(before, kids, root, p, cs - {c}))
  }

  lemma MaxSwap(x: int, y: int, z: int)
    ensures Max(x, Max(y, z)) == Max(y, Max(x, z))
  {
  }

  /** The children may be taken in any order: adding one child takes one more maximum. */
  lemma {:induction false} KidsHeightAdd(before: seq<SimpleLoop>, kids: seq<set<nat>>, root: nat, p: nat, cs: set<nat>, c: nat)
    requires Nested(kids, root) && p < |kids| && |before| == |kids| && cs <= kids[p] && c in kids[p] && c !in cs
    ensures KidsHeight(before, kids, root, p, cs + {c}) == Max(Height(before, kids, root, c) + 1, KidsHeight(before, kids, root, p, cs))
    decreases |cs|
  {
    var all := cs + {c};
    var d :| d in all && KidsHeight(before, kids, root, p, all)
      == Max(Height(before, kids, root, d) + 1, KidsHeight(before, kids, root, p, all - {d}));
    if d != c {
      var rest := cs - {d};
      assert all - {d} == rest + {c};
      assert rest + {d} == cs;
      KidsHeightAdd(before, kids, root, p, rest, c);
      KidsHeightAdd(before, kids, root, p, rest, d);
      MaxSwap(Height(before, kids, root, d) + 1, Height(before, kids, root, c) + 1, KidsHeight(before, kids, root, p, rest));
    } else {
      assert all - {d} == cs;
    }
  }

  /** One more than each child's height bounds its parent's. */
  lemma HeightAboveKid(before: seq<SimpleLoop>, kids: seq<set<nat>>, root: nat, p: nat, c: nat)
    requires Nested(kids, root) && p < |kids| && |before| == |kids| && c in kids[p]
    ensures c < |kids| && Height(before, kids, root, p) >= Height(before, kids, root, c) + 1
  {
    KidsHeightAdd(before, kids, root, p, kids[p] - {c}, c);
    assert kids[p] - {c} + {c} == kids[p];
  }

  /** Height looks only at the levels inside a set closed under children. */
  lemma {:induction false} HeightFrame(a: seq<SimpleLoop>, b: seq<SimpleLoop>, kids: seq<set<nat>>, root: nat, s: set<nat>, p: nat)
    requires Nested(kids, root) && p < |kids| && |a| == |kids| && |b| == |kids| && p in s
    requires forall x | x in s :: x < |kids| && a[x].nestingLevel == b[x].nestingLevel
    requires forall x, y | x in s && y in kids[x] :: y in s
    ensures Height(a, kids, root, p) == Height(b, kids, root, p)
    decreases Rank(|kids|, root, p), 1, 0
  {
    KidsHeightFrame(a, b, kids, root, s, p, kids[p]);
  }

  lemma {:induction false} KidsHeightFrame(a: seq<SimpleLoop>, b: seq<SimpleLoop>, kids: seq<set<nat>>, root: nat, s: set<nat>,
                                           p: nat, cs: set<nat>)
    requires Nested(kids, root) && p < |kids| && |a| == |kids| && |b| == |kids| && p in s && cs <= kids[p]
    requires forall x | x in s :: x < |kids| && a[x].nestingLevel == b[x].nestingLevel
    requires forall x, y | x in s && y in kids[x] :: y in s
    ensures KidsHeight(a, kids, root, p, cs) == KidsHeight(b, kids, root, p, cs)
    decreases Rank(|kids|, root, p), 0, |cs|
  {
    if cs != {} {
      var c :| c in cs && KidsHeight(a, kids, root, p, cs)
        == Max(Height(a, kids, root, c) + 1, KidsHeight(a, kids, root, p, cs - {c}));
      HeightFrame(a, b, kids, root, s, c);
      KidsHeightFrame(a, b, kids, root, s, p, cs - {c});
      KidsHeightAdd(b, kids, root, p, cs - {c}, c);
      assert cs - {c} + {c} == cs;
    }
  }

  /**
   * What CalculateNestingLevelRec(l, depth) of the C++ and JavaScript ports
   * does: depths as in the Go pass, but each loop of the subtree ends with its
   * Height — the larger of its own old level and one more than each child's
   * NEW level; `isRoot` and everything outside the subtree are left alone.
   */
  ghost predicate ParentLevels(before: seq<SimpleLoop>, after: seq<SimpleLoop>, kids: seq<set<nat>>, root: nat, l: nat, depth: nat)
    requires Nested(kids, root) && l < |kids| && |before| == |kids| && |after| == |kids|
  {
    && after[l].depthLevel == depth
    && (forall p, c | p in Subtree(kids, root, l) && c in kids[p] :: after[c].depthLevel == after[p].depthLevel + 1)
    && (forall p | p in Subtree(kids, root, l) :: after[p].nestingLevel == Height(before, kids, root, p))
    && (forall x | 0 <= x < |kids| && x !in Subtree(kids, root, l) :: after[x] == before[x])
    && (forall x | 0 <= x < |kids| :: SameButLevels(after[x], before[x]))
  }

  /** The state of the parent-update pass at `l` after the children in `done` have been handled. */
  ghost predicate ParentLevelsSoFar(start: seq<SimpleLoop>, cur: seq<SimpleLoop>, kids: seq<set<nat>>, root: nat,
                                    l: nat, depth: nat, done: set<nat>, covered: set<nat>)
    requires Nested(kids, root) && l < |kids| && |start| == |kids| && |cur| == |kids|
  {
    && Coverage(kids, root, l, done, covered)
    && cur[l] == start[l].(depthLevel := depth, nestingLevel := cur[l].nestingLevel)
    && cur[l].nestingLevel == Max(start[l].nestingLevel, KidsHeight(start, kids, root, l, done))
    && (forall x | 0 <= x < |kids| :: SameButLevels(cur[x], start[x]))
    && (forall x | 0 <= x < |kids| && x != l && x !in covered :: cur[x] == start[x])
    && (forall c | c in done :: cur[c].depthLevel == depth + 1)
    && (forall p, q | p in covered && q in kids[p] :: cur[q].depthLevel == cur[p].depthLevel + 1)
    && (forall p | p in covered :: cur[p].nestingLevel == Height(start, kids, root, p))
  }

  lemma ParentLevelsStart(start: seq<SimpleLoop>, cur: seq<SimpleLoop>, kids: seq<set<nat>>, root: nat, l: nat, depth: nat)
    requires Nested(kids, root) && l < |kids| && |start| == |kids| && KidsOf(start) == kids
    requires cur == start[l := start[l].(depthLevel := depth)]
    ensures KidsOf(cur) == kids && ParentLevelsSoFar(start, cur, kids, root, l, depth, {}, {})
  {
    SameKids(cur, start);
  }

  lemma PStepFrame(start: seq<SimpleLoop>, mid: seq<SimpleLoop>, after: seq<SimpleLoop>, final: seq<SimpleLoop>,
                   kids: seq<set<nat>>, root: nat, l: nat, depth: nat, covered: set<nat>, c: nat, level: nat)
    requires Nested(kids, root) && l < |kids| && c < |kids| && |start| == |kids| && |mid| == |kids| && |after| == |kids|
    requires l !in Subtree(kids, root, c)
    requires mid[l] == start[l].(depthLevel := depth, nestingLevel := mid[l].nestingLevel)
    requires forall x | 0 <= x < |kids| :: SameButLevels(mid[x], start[x]) && SameButLevels(after[x], mid[x])
    requires forall x | 0 <= x < |kids| && x != l && x !in covered :: mid[x] == start[x]
    requires forall x | 0 <= x < |kids| && x !in Subtree(kids, root, c) :: after[x] == mid[x]
    requires final == after[l := after[l].(nestingLevel := level)]
    ensures final[l] == start[l].(depthLevel := depth, nestingLevel := final[l].nestingLevel)
    ensures forall x | 0 <= x < |kids| :: SameButLevels(final[x], start[x])
    ensures forall x | 0 <= x < |kids| && x != l && x !in covered + Subtree(kids, root, c) :: final[x] == start[x]
  {
  }

  lemma PStepTop(start: seq<SimpleLoop>, mid: seq<SimpleLoop>, after: seq<SimpleLoop>, final: seq<SimpleLoop>,
                 kids: seq<set<nat>>, root: nat, l: nat, depth: nat, done: set<nat>, c: nat)
    requires Nested(kids, root) && l < |kids| && |start| == |kids| && |mid| == |kids| && |after| == |kids|
    requires c in kids[l] && c !in done && done <= kids[l] && c != l
    requires forall d | d in done :: d != l && after[d] == mid[d]
    requires after[l] == mid[l] && after[c].depthLevel == depth + 1
    requires after[c].nestingLevel == Height(start, kids, root, c)
    requires mid[l].nestingLevel == Max(start[l].nestingLevel, KidsHeight(start, kids, root, l, done))
    requires forall d | d in done :: mid[d].depthLevel == depth + 1
    requires final == after[l := after[l].(nestingLevel := Max(after[l].nestingLevel, after[c].nestingLevel + 1))]
    ensures |final| == |kids| && final[l].nestingLevel == Max(start[l].nestingLevel, KidsHeight(start, kids, root, l, done + {c}))
    ensures forall d | d in done + {c} :: final[d].depthLevel == depth + 1
  {
    KidsHeightAdd(start, kids, root, l, done, c);
  }

  /** Below the child just visited, the recursive call left every level as the pass specifies. */
  lemma PStepBelow(start: seq<SimpleLoop>, mid: seq<SimpleLoop>, after: seq<SimpleLoop>, final: seq<SimpleLoop>,
                   kids: seq<set<nat>>, root: nat, l: nat, depth: nat, c: nat, level: nat)
    requires Nested(kids, root) && l < |kids| && c < |kids| && |start| == |kids| && |mid| == |kids| && |after| == |kids|
    requires forall x | x in Subtree(kids, root, c) :: x != l && mid[x] == start[x]
    requires ParentLevels(mid, after, kids, root, c, depth)
    requires final == after[l := after[l].(nestingLevel := level)]
    ensures forall p, q | p in Subtree(kids, root, c) && q in kids[p] :: final[q].depthLevel == final[p].depthLevel + 1
    ensures forall p | p in Subtree(kids, root, c) :: final[p].nestingLevel == Height(start, kids, root, p)
  {
    forall p, q | p in Subtree(kids, root, c) && q in kids[p]
      ensures q in Subtree(kids, root, c)
    {
      SubtreeClosed(kids, root, c, p, q);
    }
    forall p | p in Subtree(kids, root, c)
      ensures final[p].nestingLevel == Height(start, kids, root, p)
    {
      HeightFrame(mid, start, kids, root, Subtree(kids, root, c), p);
    }
  }

  /** Inside the subtrees covered earlier, the visit of `c` changed nothing. */
  lemma PStepCovered(start: seq<SimpleLoop>, mid: seq<SimpleLoop>, after: seq<SimpleLoop>, final: seq<SimpleLoop>,
                     kids: seq<set<nat>>, root: nat, l: nat, covered: set<nat>, c: nat, level: nat)
    requires Nested(kids, root) && l < |kids| && c < |kids| && |start| == |kids| && |mid| == |kids| && |after| == |kids|
    requires l !in covered && forall x | x in covered :: x < |kids|
    requires forall p, q | p in covered && q in kids[p] :: mid[q].depthLevel == mid[p].depthLevel + 1
    requires forall p | p in covered :: mid[p].nestingLevel == Height(start, kids, root, p)
    requires forall x | x in Subtree(kids, root, c) :: x !in covered
    requires forall x | 0 <= x < |kids| && x !in Subtree(kids, root, c) :: after[x] == mid[x]
    requires final == after[l := after[l].(nestingLevel := level)]
    ensures forall p | p in covered :: final[p] == mid[p]
  {
    assert c in Subtree(kids, root, c);
  }

  /** A level of at least 1 given with set_nesting_level does not mark the loop as root. */
  lemma NotMarkedRoot(after: seq<SimpleLoop>, final: seq<SimpleLoop>, l: nat, level: int)
    requires l < |after| && level >= 1
    requires final == after[l := after[l].(nestingLevel := level, isRoot := after[l].isRoot || level == 0)]
    ensures final == after[l := after[l].(nestingLevel := level)]
  {
  }

  /** What one visit of the parent-update pass leaves outside the subtree just visited. */
  lemma PStepOutside(start: seq<SimpleLoop>, mid: seq<SimpleLoop>, after: seq<SimpleLoop>, final: seq<SimpleLoop>,
                   kids: seq<set<nat>>, root: nat, l: nat, depth: nat, done: set<nat>, covered: set<nat>, c: nat, level: nat)
    requires Nested(kids, root) && Tree(kids) && l < |kids| && |start| == |kids| && |mid| == |kids| && |after| == |kids|
    requires KidsOf(start) == kids && c in kids[l] && c !in done
    requires ParentLevelsSoFar(start, mid, kids, root, l, depth, done, covered)
    requires ParentLevels(mid, after, kids, root, c, depth + 1)
    requires level == Max(after[l].nestingLevel, after[c].nestingLevel + 1)
    requires final == after[l := after[l].(nestingLevel := level)]
    ensures |final| == |kids|
    ensures final[l] == start[l].(depthLevel := depth, nestingLevel := final[l].nestingLevel)
    ensures forall x | 0 <= x < |kids| :: SameButLevels(final[x], start[x])
    ensures forall x | 0 <= x < |kids| && x != l && x !in covered + Subtree(kids, root, c) :: final[x] == start[x]
    ensures forall p, q | p in covered && q in kids[p] :: final[q].depthLevel == final[p].depthLevel + 1
    ensures forall p | p in covered :: final[p].nestingLevel == Height(start, kids, root, p)
  {
    StepUntouched(start, mid, kids, root, l, done, covered, c);
    PStepFrame(start, mid, after, final, kids, root, l, depth, covered, c, level);
    PStepCovered(start, mid, after, final, kids, root, l, covered, c, level);
  }

  /** What one visit of the parent-update pass leaves in the subtree just visited and at `l`. */
  lemma PStepInside(start: seq<SimpleLoop>, mid: seq<SimpleLoop>, after: seq<SimpleLoop>, final: seq<SimpleLoop>,
                   kids: seq<set<nat>>, root: nat, l: nat, depth: nat, done: set<nat>, covered: set<nat>, c: nat, level: nat)
    requires Nested(kids, root) && Tree(kids) && l < |kids| && |start| == |kids| && |mid| == |kids| && |after| == |kids|
    requires KidsOf(start) == kids && c in kids[l] && c !in done
    requires ParentLevelsSoFar(start, mid, kids, root, l, depth, done, covered)
    requires ParentLevels(mid, after, kids, root, c, depth + 1)
    requires level == Max(after[l].nestingLevel, after[c].nestingLevel + 1)
    requires final == after[l := after[l].(nestingLevel := level)]
    ensures |final| == |kids|
    ensures final[l].nestingLevel == Max(start[l].nestingLevel, KidsHeight(start, kids, root, l, done + {c}))
    ensures forall d | d in done + {c} :: final[d].depthLevel == depth + 1
    ensures forall p, q | p in Subtree(kids, root, c) && q in kids[p] :: final[q].depthLevel == final[p].depthLevel + 1
    ensures forall p | p in Subtree(kids, root, c) :: final[p].nestingLevel == Height(start, kids, root, p)
  {
    StepUntouched(start, mid, kids, root, l, done, covered, c);
    assert c in Subtree(kids, root, c);
    forall d | d in done
      ensures d != l && after[d] == mid[d]
    {
      assert d in Subtree(kids, root, d);
    }
    PStepBelow(start, mid, after, final, kids, root, l, depth + 1, c, level);
    PStepTop(start, mid, after, final, kids, root, l, depth, done, c);
  }

  lemma ParentLevelsStep(start: seq<SimpleLoop>, mid: seq<SimpleLoop>, after: seq<SimpleLoop>, final: seq<SimpleLoop>,
                         kids: seq<set<nat>>, root: nat, l: nat, depth: nat, done: set<nat>, covered: set<nat>, c: nat)
    requires Nested(kids, root) && Tree(kids) && l < |kids| && |start| == |kids| && |mid| == |kids| && |after| == |kids|
    requires KidsOf(start) == kids && c in kids[l] && c !in done
    requires ParentLevelsSoFar(start, mid, kids, root, l, depth, done, covered)
    requires ParentLevels(mid, after, kids, root, c, depth + 1)
    requires final == after[l := after[l].(nestingLevel := Max(after[l].nestingLevel, after[c].nestingLevel + 1))]
    ensures |final| == |kids| && KidsOf(final) == kids
    ensures ParentLevelsSoFar(start, final, kids, root, l, depth, done + {c}, covered + Subtree(kids, root, c))
  {
    StepCover(kids, root, l, done, covered, c);
    var level := Max(after[l].nestingLevel, after[c].nestingLevel + 1);
    PStepOutside(start, mid, after, final, kids, root, l, depth, done, covered, c, level);
    PStepInside(start, mid, after, final, kids, root, l, depth, done, covered, c, level);
    SameKids(final, start);
  }

  lemma ParentLevelsDone(start: seq<SimpleLoop>, cur: seq<SimpleLoop>, kids: seq<set<nat>>, root: nat, l: nat, depth: nat,
                         covered: set<nat>)
    requires Nested(kids, root) && l < |kids| && |start| == |kids| && |cur| == |kids|
    requires ParentLevelsSoFar(start, cur, kids, root, l, depth, kids[l], covered)
    ensures ParentLevels(start, cur, kids, root, l, depth)
  {
    forall p | p in Subtree(kids, root, l) && p != l
      ensures p in covered
    {
      var d :| d in kids[l] && p in Subtree(kids, root, d);
    }
  }

  class Lsg {
    var store: seq<SimpleLoop>
    var root: nat
    /** The loops added with AddLoop, in order (`loops` / `loops_`). */
    var loops: seq<nat>
    /** The per-graph counter of the C++ and JavaScript ports (`loop_counter_`, `loopCounter`). */
    var loopCounter: nat

    ghost predicate Valid()
      reads this
    {
      && root < |store|
      && (forall i | 0 <= i < |loops| :: loops[i] < |store|)
      && (forall l | 0 <= l < |store| :: InArena(store[l], |store|))
    }

    /**
     * NewLSG of the Go ports: the root is made by NewLoop, so it takes the
     * next process-wide number; its nesting level is 0, it is not marked as
     * root, and it is not added to `loops`.
     */
    constructor (counter: LoopCounter)
      modifies counter
      ensures Valid() && fresh(this)
      ensures store == [FreshLoop(old(counter.value), false)] && root == 0 && loops == []
      ensures counter.value == old(counter.value) + 1
    {
      store := [FreshLoop(counter.value, false)];
      counter.value := counter.value + 1;
      root := 0;
      loops := [];
      loopCounter := 0;
    }

    /**
     * The LoopStructureGraph constructor of the C++ and JavaScript ports: the
     * root gets number 0 from a per-graph counter, set_nesting_level(0) marks
     * it as root, and it is added to `loops`, so the loop count includes it.
     */
    constructor PerGraph()
      ensures Valid() && fresh(this)
      ensures store == [FreshLoop(0, true).(isRoot := true)] && root == 0 && loops == [0]
      ensures loopCounter == 1
    {
      store := [FreshLoop(0, true).(isRoot := true)];
      root := 0;
      loops := [0];
      loopCounter := 1;
    }

    /**
     * NewLoop of the Go ports: a loop with no blocks, children, parent or
     * header, numbered with the current process-wide counter, which then
     * moves on by one.
     */
    method NewLoop(counter: LoopCounter) returns (l: nat)
      requires Valid()
      modifies this, counter
      ensures Valid() && root == old(root) && loops == old(loops) && loopCounter == old(loopCounter)
      ensures l == old(|store|) && store == old(store) + [FreshLoop(old(counter.value), false)]
      ensures counter.value == old(counter.value) + 1
    {
      l := |store|;
      store := store + [FreshLoop(counter.value, false)];
      counter.value := counter.value + 1;
    }

    /** CreateNewLoop of the C++ and JavaScript ports: numbered by the graph's own counter. */
    method CreateNewLoop() returns (l: nat)
      requires Valid()
      modifies this
      ensures Valid() && root == old(root) && loops == old(loops)
      ensures l == old(|store|) && store == old(store) + [FreshLoop(old(loopCounter), true)]
      ensures loopCounter == old(loopCounter) + 1
    {
      l := |store|;
      store := store + [FreshLoop(loopCounter, true)];
      loopCounter := loopCounter + 1;
    }

    /** AddLoop appends; the loop count is the length of `loops`. */
    method AddLoop(l: nat)
      requires Valid() && l < |store|
      modifies this
      ensures Valid() && store == old(store) && root == old(root) && loopCounter == old(loopCounter)
      ensures loops == old(loops) + [l] && NumLoops() == old(NumLoops()) + 1
    {
      loops := loops + [l];
    }

    function NumLoops(): nat
      reads this
    {
      |loops|
    }

    /** AddNode: set insertion of a member block; inserting a member again changes nothing. */
    method AddNode(l: nat, bb: nat)
      requires Valid() && l < |store|
      modifies this
      ensures Valid() && |store| == |old(store)| && root == old(root) && loops == old(loops)
      ensures loopCounter == old(loopCounter)
      ensures store == old(store)[l := old(store[l]).(basicBlocks := old(store[l].basicBlocks) + {bb})]
      ensures bb in old(store[l].basicBlocks) ==> store == old(store)
    {
      if bb in store[l].basicBlocks {
        assert store[l].basicBlocks + {bb} == store[l].basicBlocks;
        assert store[l := store[l]] == store;
      }
      store := store[l := store[l].(basicBlocks := store[l].basicBlocks + {bb})];
    }

    /** AddChildLoop: set insertion of a child; inserting a child again changes nothing. */
    method AddChildLoop(l: nat, child: nat)
      requires Valid() && l < |store| && child < |store|
      modifies this
      ensures Valid() && |store| == |old(store)| && root == old(root) && loops == old(loops)
      ensures loopCounter == old(loopCounter)
      ensures store == old(store)[l := old(store[l]).(children := old(store[l].children) + {child})]
      ensures child in old(store[l].children) ==> store == old(store)
    {
      if child in store[l].children {
        assert store[l].children + {child} == store[l].children;
        assert store[l := store[l]] == store;
      }
      store := store[l := store[l].(children := store[l].children + {child})];
    }

    /** SetParent: records the parent and registers the loop among the parent's children. */
    method SetParent(l: nat, p: nat)
      requires Valid() && l < |store| && p < |store|
      modifies this
      ensures Valid() && |store| == |old(store)| && root == old(root) && loops == old(loops)
      ensures loopCounter == old(loopCounter)
      ensures store[l].parent == Some(p) && l in store[p].children
      ensures store == Linked(old(store), l, p)
    {
      store := store[l := store[l].(parent := Some(p))];
      AddChildLoop(p, l);
    }

    /**
     * The go_pro finder's `node.loop.Parent = loop`: the parent field is
     * written directly, and the parent's children set is not told.
     */
    method SetParentField(l: nat, p: nat)
      requires Valid() && l < |store| && p < |store|
      modifies this
      ensures Valid() && |store| == |old(store)| && root == old(root) && loops == old(loops)
      ensures loopCounter == old(loopCounter)
      ensures store == old(store)[l := old(store[l]).(parent := Some(p))]
    {
      store := store[l := store[l].(parent := Some(p))];
    }

    /** SetHeader: the header becomes a member block too. */
    method SetHeader(l: nat, bb: nat)
      requires Valid() && l < |store|
      modifies this
      ensures Valid() && |store| == |old(store)| && root == old(root) && loops == old(loops)
      ensures loopCounter == old(loopCounter)
      ensures store == old(store)[l := old(store[l]).(header := Some(bb), basicBlocks := old(store[l].basicBlocks) + {bb})]
      ensures bb in store[l].basicBlocks
    {
      AddNode(l, bb);
      store := store[l := store[l].(header := Some(bb))];
    }

    method SetIsReducible(l: nat, isReducible: bool)
      requires Valid() && l < |store|
      modifies this
      ensures Valid() && root == old(root) && loops == old(loops) && loopCounter == old(loopCounter)
      ensures store == old(store)[l := old(store[l]).(isReducible := isReducible)]
    {
      store := store[l := store[l].(isReducible := isReducible)];
    }

    /** SetNestingLevel of the Go ports: only the level changes. */
    method SetNestingLevel(l: nat, level: nat)
      requires Valid() && l < |store|
      modifies this
      ensures Valid() && root == old(root) && loops == old(loops) && loopCounter == old(loopCounter)
      ensures store == old(store)[l := old(store[l]).(nestingLevel := level)]
    {
      store := store[l := store[l].(nestingLevel := level)];
    }

    /** set_nesting_level / setNestingLevel of the C++, Java and JavaScript ports: level 0 marks the loop as root. */
    method SetNestingLevelMarkingRoot(l: nat, level: nat)
      requires Valid() && l < |store|
      modifies this
      ensures Valid() && root == old(root) && loops == old(loops) && loopCounter == old(loopCounter)
      ensures store == old(store)[l := old(store[l]).(nestingLevel := level, isRoot := old(store[l].isRoot) || level == 0)]
    {
      store := store[l := store[l].(nestingLevel := level, isRoot := store[l].isRoot || level == 0)];
    }

    method SetDepthLevel(l: nat, level: nat)
      requires Valid() && l < |store|
      modifies this
      ensures Valid() && root == old(root) && loops == old(loops) && loopCounter == old(loopCounter)
      ensures store == old(store)[l := old(store[l]).(depthLevel := level)]
    {
      store := store[l := store[l].(depthLevel := level)];
    }

    /**
     * The first loop of CalculateNestingLevel (all ports): every listed loop
     * that is not marked root and has no parent is given the root as parent.
     */
    method AttachOrphans()
      requires Valid()
      modifies this
      ensures Valid() && root == old(root) && loops == old(loops) && loopCounter == old(loopCounter)
      ensures store == Attached(old(store), loops, root)
    {
      ghost var start := store;
      var i := 0;
      assert loops[..0] == [];
      AttachNone(start, root);
      while i < |loops|
        invariant 0 <= i <= |loops| && Valid() && root == old(root) && loops == old(loops) && loopCounter == old(loopCounter)
        invariant store == Attached(start, loops[..i], root)
      {
        AttachOne(loops[i], start, loops[..i]);
        assert loops[..i + 1] == loops[..i] + [loops[i]];
        i := i + 1;
      }
      assert loops[..i] == loops;
    }

    /** One turn of the loop of AttachOrphans. */
    method AttachOne(l: nat, ghost start: seq<SimpleLoop>, ghost pre: seq<nat>)
      requires Valid() && l < |store| && root < |start| && forall i | 0 <= i < |pre| :: pre[i] < |start|
      requires store == Attached(start, pre, root)
      modifies this
      ensures Valid() && root == old(root) && loops == old(loops) && loopCounter == old(loopCounter)
      ensures store == Attached(start, pre + [l], root)
    {
      AttachStep(start, pre, root, l);
      if !store[l].isRoot && store[l].parent == None {
        SetParent(l, root);
      }
    }

    /**
     * CalculateNestingLevel of the Go ports: orphans are attached to the
     * root, then the child-update pass runs from the root at depth 0.
     */
    method CalculateNestingLevel()
      requires Valid() && Nested(KidsOf(store), root) && ChildrenKnowParent(store) && root !in Orphans(store, loops)
      modifies this
      ensures Valid() && root == old(root) && loops == old(loops) && loopCounter == old(loopCounter)
      ensures |store| == old(|store|)
      ensures var a := Attached(old(store), loops, root);
        Nested(KidsOf(a), root) && ChildLevels(a, store, KidsOf(a), root, root, 0)
    {
      AttachedShape(store, loops, root);
      AttachOrphans();
      CalculateNestingLevelRec(root, 0);
    }

    /**
     * CalculateNestingLevel of the C++ and JavaScript ports: the same
     * attaching loop, then the parent-update pass from the root.
     */
    method CalculateNestingLevelByParent()
      requires Valid() && Nested(KidsOf(store), root) && ChildrenKnowParent(store) && root !in Orphans(store, loops)
      modifies this
      ensures Valid() && root == old(root) && loops == old(loops) && loopCounter == old(loopCounter)
      ensures |store| == old(|store|)
      ensures var a := Attached(old(store), loops, root);
        Nested(KidsOf(a), root) && ParentLevels(a, store, KidsOf(a), root, root, 0)
    {
      AttachedShape(store, loops, root);
      AttachOrphans();
      CalculateNestingLevelRecByParent(root, 0);
    }

    /**
     * calculateNestingLevel of the Go ports.  After recursing into child
     * `ll`, the CHILD's level is set to max(loop's level, ll's level + 1).
     */
    method CalculateNestingLevelRec(l: nat, depth: nat)
      requires Valid() && l < |store| && Nested(KidsOf(store), root) && Tree(KidsOf(store))
      modifies this
      ensures Valid() && root == old(root) && loops == old(loops) && loopCounter == old(loopCounter)
      ensures |store| == old(|store|) && KidsOf(store) == KidsOf(old(store))
      ensures ChildLevels(old(store), store, KidsOf(old(store)), root, l, depth)
      decreases Rank(|store|, root, l), 1
    {
      ghost var kids := KidsOf(store);
      ghost var start := store;
      SetDepthLevel(l, depth);
      ChildLevelsStart(start, store, kids, root, l, depth);
      ghost var covered: set<nat> := {};
      var remaining := store[l].children;
      ghost var done: set<nat> := {};
      while remaining != {}
        invariant Valid() && root == old(root) && loops == old(loops) && loopCounter == old(loopCounter)
        invariant |store| == |start| && KidsOf(store) == kids
        invariant remaining + done == kids[l] && remaining !! done
        invariant ChildLevelsSoFar(start, store, kids, root, l, depth, done, covered)
        decreases remaining
      {
        var c :| c in remaining;
        VisitChild(l, c, depth, start, kids, done, covered);
        covered := covered + Subtree(kids, root, c);
        remaining := remaining - {c};
        done := done + {c};
      }
      ChildLevelsDone(start, store, kids, root, l, depth, covered);
    }

    /** One turn of the loop of CalculateNestingLevelRec: recurse into child `c`, then set its level. */
    method VisitChild(l: nat, c: nat, depth: nat, ghost start: seq<SimpleLoop>, ghost kids: seq<set<nat>>,
                      ghost done: set<nat>, ghost covered: set<nat>)
      requires Valid() && l < |store| && |store| == |start| && KidsOf(store) == kids && KidsOf(start) == kids
      requires Nested(kids, root) && Tree(kids) && c in kids[l] && c !in done
      requires ChildLevelsSoFar(start, store, kids, root, l, depth, done, covered)
      modifies this
      ensures Valid() && root == old(root) && loops == old(loops) && loopCounter == old(loopCounter)
      ensures |store| == |start| && KidsOf(store) == kids
      ensures ChildLevelsSoFar(start, store, kids, root, l, depth, done + {c}, covered + Subtree(kids, root, c))
      decreases Rank(|store|, root, l), 0
    {
      SubtreeOfChild(kids, root, l, c);
      ghost var mid := store;
      CalculateNestingLevelRec(c, depth + 1);
      ghost var after := store;
      SetNestingLevel(c, Max(store[l].nestingLevel, store[c].nestingLevel + 1));
      ChildLevelsStep(start, mid, after, store, kids, root, l, depth, done, covered, c);
    }

    /**
     * CalculateNestingLevelRec of the C++ and JavaScript ports.  After
     * recursing into a child, the LOOP's own level is set, with
     * set_nesting_level, to max(its level, 1 + the child's level).
     */
    method CalculateNestingLevelRecByParent(l: nat, depth: nat)
      requires Valid() && l < |store| && Nested(KidsOf(store), root) && Tree(KidsOf(store))
      modifies this
      ensures Valid() && root == old(root) && loops == old(loops) && loopCounter == old(loopCounter)
      ensures |store| == old(|store|) && KidsOf(store) == KidsOf(old(store))
      ensures ParentLevels(old(store), store, KidsOf(old(store)), root, l, depth)
      decreases Rank(|store|, root, l), 1
    {
      ghost var kids := KidsOf(store);
      ghost var start := store;
      SetDepthLevel(l, depth);
      ParentLevelsStart(start, store, kids, root, l, depth);
      ghost var covered: set<nat> := {};
      var remaining := store[l].children;
      ghost var done: set<nat> := {};
      while remaining != {}
        invariant Valid() && root == old(root) && loops == old(loops) && loopCounter == old(loopCounter)
        invariant |store| == |start| && KidsOf(store) == kids
        invariant remaining + done == kids[l] && remaining !! done
        invariant ParentLevelsSoFar(start, store, kids, root, l, depth, done, covered)
        decreases remaining
      {
        var c :| c in remaining;
        VisitChildByParent(l, c, depth, start, kids, done, covered);
        covered := covered + Subtree(kids, root, c);
        remaining := remaining - {c};
        done := done + {c};
      }
      ParentLevelsDone(start, store, kids, root, l, depth, covered);
    }

    /** One turn of the loop of CalculateNestingLevelRecByParent. */
    method VisitChildByParent(l: nat, c: nat, depth: nat, ghost start: seq<SimpleLoop>, ghost kids: seq<set<nat>>,
                              ghost done: set<nat>, ghost covered: set<nat>)
      requires Valid() && l < |store| && |store| == |start| && KidsOf(store) == kids && KidsOf(start) == kids
      requires Nested(kids, root) && Tree(kids) && c in kids[l] && c !in done
      requires ParentLevelsSoFar(start, store, kids, root, l, depth, done, covered)
      modifies this
      ensures Valid() && root == old(root) && loops == old(loops) && loopCounter == old(loopCounter)
      ensures |store| == |start| && KidsOf(store) == kids
      ensures ParentLevelsSoFar(start, store, kids, root, l, depth, done + {c}, covered + Subtree(kids, root, c))
      decreases Rank(|store|, root, l), 0
    {
      SubtreeOfChild(kids, root, l, c);
      ghost var mid := store;
      CalculateNestingLevelRecByParent(c, depth + 1);
      ghost var after := store;
      var level := Max(store[l].nestingLevel, store[c].nestingLevel + 1);
      SetNestingLevelMarkingRoot(l, level);
      NotMarkedRoot(after, store, l, level);
      ParentLevelsStep(start, mid, after, store, kids, root, l, depth, done, covered, c);
    }
  }
}
