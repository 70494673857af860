/**
 * Four places where a port does something its own design does not intend,
 * each stated twice: the behaviour as written, on a small loop structure
 * graph that shows it, and the intended behaviour, which the model uses
 * wherever the ports agree with it.
 */
module Findings {
  import opened Options
  import opened Lsg
  import opened Havlak
  import Finder
  import DepthFirst

  /*
   * 1. The nesting pass of the Go ports raises the CHILD's level after
   *    visiting it; the C++ and JavaScript ports raise the PARENT's.  Only
   *    the latter gives innermost loops level 0 and an outer loop a higher
   *    level than every loop inside it.
   */

  /**
   * Three loops as a Go run leaves them: loop 0 nested in loop 1, loop 1
   * nested in the root 2, every level 0; loops 0 and 1 are listed.
   */
  function Chain(): (s: seq<SimpleLoop>)
    ensures |s| == 3 && KidsOf(s) == [{}, {0}, {1}] && Nested(KidsOf(s), 2)
    ensures forall x | 0 <= x < 3 :: s[x].nestingLevel == 0
    ensures Attached(s, [0, 1], 2) == s
  {
    var s := [FreshLoop(1, false).(parent := Some(1)),
              FreshLoop(2, false).(parent := Some(2), children := {0}),
              FreshLoop(0, false).(children := {1})];
    assert KidsOf(s)[0] == {} && KidsOf(s)[1] == {0} && KidsOf(s)[2] == {1};
    assert Orphans(s, [0, 1]) == {};
    assert s[2].(children := s[2].children + {}) == s[2];
    s
  }

  /** Both loops of the chain lie in the subtree of the root. */
  lemma ChainSubtree()
    ensures 0 in Subtree(KidsOf(Chain()), 2, 2) && 1 in Subtree(KidsOf(Chain()), 2, 2)
  {
    var kids := KidsOf(Chain());
    SubtreeClosed(kids, 2, 2, 2, 1);
    SubtreeClosed(kids, 2, 2, 1, 0);
  }

  /**
   * As written (Go): after CalculateNestingLevel on the chain, the inner
   * loop and the loop around it both have nesting level 1.
   */
  lemma ChildUpdateFlattens(after: seq<SimpleLoop>)
    requires |after| == 3 && ChildLevels(Chain(), after, KidsOf(Chain()), 2, 2, 0)
    ensures after[0].nestingLevel == 1 && after[1].nestingLevel == 1 && after[2].nestingLevel == 0
  {
    ChainSubtree();
    var kids := KidsOf(Chain());
    assert 1 in kids[2] && 0 in kids[1];
  }

  /**
   * Intended, and what the parent-update pass does: every loop's nesting
   * level is above each of its children's, and its depth below.
   */
  lemma ParentLevelsNestOutward(before: seq<SimpleLoop>, after: seq<SimpleLoop>, kids: seq<set<nat>>, root: nat,
                                l: nat, depth: nat, p: nat, c: nat)
    requires Nested(kids, root) && l < |kids| && |before| == |kids| && |after| == |kids|
    requires ParentLevels(before, after, kids, root, l, depth)
    requires p in Subtree(kids, root, l) && c in kids[p]
    ensures after[c].nestingLevel < after[p].nestingLevel && after[c].depthLevel == after[p].depthLevel + 1
  {
    SubtreeClosed(kids, root, l, p, c);
    HeightAboveKid(before, kids, root, p, c);
  }

  /** Intended, on the chain: innermost 0, then 1, then the root 2; depths 2, 1, 0. */
  lemma ParentUpdateOnChain(after: seq<SimpleLoop>)
    requires |after| == 3 && ParentLevels(Chain(), after, KidsOf(Chain()), 2, 2, 0)
    ensures after[0].nestingLevel == 0 && after[1].nestingLevel == 1 && after[2].nestingLevel == 2
    ensures after[0].depthLevel == 2 && after[1].depthLevel == 1 && after[2].depthLevel == 0
  {
    ChainSubtree();
    var (s, kids) := (Chain(), KidsOf(Chain()));
    assert kids[0] == {};
    assert Height(s, kids, 2, 0) == 0;
    KidsHeightAdd(s, kids, 2, 1, {}, 0);
    assert {} + {0} == kids[1];
    assert Height(s, kids, 2, 1) == 1;
    KidsHeightAdd(s, kids, 2, 2, {}, 1);
    assert {} + {1} == kids[2];
    assert Height(s, kids, 2, 2) == 2;
    assert 1 in kids[2] && 0 in kids[1];
  }

  /*
   * 2. go_pro links a nested loop to the loop around it by assigning its
   *    Parent field only, so the outer loop's Children never receive it and
   *    the nesting pass, which walks Children from the root, never reaches
   *    it.
   */

  /** Before the link: loop 0 has just been found inside loop 1, which hangs under the root 2. */
  function Unlinked(): (s: seq<SimpleLoop>)
    ensures |s| == 3 && s[0].parent.None? && s[1].children == {}
  {
    [FreshLoop(2, false), FreshLoop(3, false).(parent := Some(2)), FreshLoop(1, false).(children := {1})]
  }

  /**
   * As written (go_pro, SetParentField): the nested loop names its parent
   * but the parent does not list it, and the nesting pass then leaves it
   * exactly as it was, at depth 0 although it lies two levels below the
   * root.
   */
  lemma FieldOnlyLinkSkipsNested(after: seq<SimpleLoop>)
    requires var s := Unlinked()[0 := Unlinked()[0].(parent := Some(1))];
      && |after| == 3 && Nested(KidsOf(Attached(s, [0, 1], 2)), 2)
      && ChildLevels(Attached(s, [0, 1], 2), after, KidsOf(Attached(s, [0, 1], 2)), 2, 2, 0)
    ensures !ParentKnowsChild(Unlinked()[0 := Unlinked()[0].(parent := Some(1))])
    ensures after[0] == Unlinked()[0].(parent := Some(1)) && after[0].depthLevel == 0
  {
    var s := Unlinked()[0 := Unlinked()[0].(parent := Some(1))];
    assert Orphans(s, [0, 1]) == {};
    var a := Attached(s, [0, 1], 2);
    assert a[2].children == {1} && a[1].children == {} && a[0].children == {};
    var kids := KidsOf(a);
    assert kids[1] == {};
    assert Subtree(kids, 2, 1) == {1};
    assert Subtree(kids, 2, 2) == {2, 1};
    assert a[0] == s[0];
  }

  /**
   * Intended (SetParent, as go and C++ link nested loops): the parent lists
   * the nested loop, the graph stays a forest in which every child is
   * listed by its parent, and the nesting pass gives the nested loop depth 2.
   */
  lemma LinkReachesNested(after: seq<SimpleLoop>)
    requires var s := Linked(Unlinked(), 0, 1);
      && |after| == 3 && Nested(KidsOf(Attached(s, [0, 1], 2)), 2)
      && ChildLevels(Attached(s, [0, 1], 2), after, KidsOf(Attached(s, [0, 1], 2)), 2, 2, 0)
    ensures ParentKnowsChild(Linked(Unlinked(), 0, 1)) && ChildrenKnowParent(Linked(Unlinked(), 0, 1))
    ensures after[0].depthLevel == 2 && after[1].depthLevel == 1
  {
    var s := Linked(Unlinked(), 0, 1);
    assert Orphans(s, [0, 1]) == {};
    var a := Attached(s, [0, 1], 2);
    var kids := KidsOf(a);
    assert 1 in kids[2] && 0 in kids[1];
    SubtreeClosed(kids, 2, 2, 2, 1);
  }

  /*
   * 3. The JavaScript port records the opposite of what its own comment and
   *    every other port record: a loop is reducible exactly when its header
   *    is not of class irreducible.
   */

  /** As written (JavaScript): an irreducible header gives a reducible loop and a reducible one an irreducible loop. */
  lemma JsInvertsReducibility(counter: nat, b: nat)
    ensures Finder.Opened(Finder.Js, counter, b, Irreducible).isReducible
    ensures !Finder.Opened(Finder.Js, counter, b, Reducible).isReducible
  {
  }

  /** Intended, as the Go port records it: reducible exactly when the header is not irreducible. */
  lemma GoRecordsReducibility(counter: nat, b: nat, t: BlockClass)
    ensures Finder.Opened(Finder.Go, counter, b, t).isReducible <==> t != Irreducible
  {
  }

  /*
   * 4. The JavaScript DFS never declares its loop variable `target`, so every
   *    recursive call shares one global index: when a call returns, its
   *    caller's loop resumes from the index the callee stopped at.  A block
   *    reachable from the start can then stay unnumbered, and step b takes
   *    it for dead.
   */

  /** What the JavaScript DFS leaves: numbers, subtree ends, the last number given and the shared index. */
  datatype SharedSearched = SharedSearched(number: seq<int>, last: seq<int>, lastid: nat, target: nat)

  /**
   * As written (JavaScript): `block`, unvisited, gets `current`; its loop
   * over the out-edges starts the shared index at 0.  The index ends at or
   * past the number of out-edges, and exactly `lastid + 1` numbers are given.
   */
  ghost function SharedSearch(edges: seq<seq<nat>>, number: seq<int>, last: seq<int>, block: nat, current: nat): (r: SharedSearched)
    requires DepthFirst.EdgesInRange(edges) && |number| == |edges| && |last| == |edges|
    requires block < |edges| && number[block] == DepthFirst.Unvisited && DepthFirst.Counted(number, current)
    ensures |r.number| == |edges| && |r.last| == |edges| && current <= r.lastid && DepthFirst.Counted(r.number, r.lastid + 1)
    ensures |edges[block]| <= r.target
    decreases |DepthFirst.UnvisitedBlocks(number)|, 0, 0
  {
    DepthFirst.NumberOne(number, block, current);
    var r := SharedEdges(edges, number[block := current], last, block, current, 0);
    r.(last := r.last[current := r.lastid])
  }

  /**
   * As written (JavaScript): the loop over the out-edges of `block` from
   * shared index `target` on; after a recursive call it goes on from the
   * index the callee left, plus one.
   */
  ghost function SharedEdges(edges: seq<seq<nat>>, number: seq<int>, last: seq<int>, block: nat, lastid: nat, target: nat)
    : (r: SharedSearched)
    requires DepthFirst.EdgesInRange(edges) && |number| == |edges| && |last| == |edges|
    requires block < |edges| && DepthFirst.Counted(number, lastid + 1)
    ensures |r.number| == |edges| && |r.last| == |edges| && lastid <= r.lastid && DepthFirst.Counted(r.number, r.lastid + 1)
    ensures |edges[block]| <= r.target
    decreases |DepthFirst.UnvisitedBlocks(number)|, 1, if target <= |edges[block]| then |edges[block]| - target else 0
  {
    if target >= |edges[block]| then SharedSearched(number, last, lastid, target)
    else if number[edges[block][target]] == DepthFirst.Unvisited then
      var r := SharedSearch(edges, number, last, edges[block][target], lastid + 1);
      SharedEdges(edges, r.number, r.last, block, r.lastid, r.target + 1)
    else SharedEdges(edges, number, last, block, lastid, target + 1)
  }

  /** As written (JavaScript): the whole-graph search from `start`, every block unvisited before. */
  ghost function SharedSearchAll(edges: seq<seq<nat>>, start: nat): (r: SharedSearched)
    requires DepthFirst.EdgesInRange(edges) && start < |edges|
    ensures |r.number| == |edges| && DepthFirst.Counted(r.number, r.lastid + 1)
  {
    DepthFirst.AllUnvisited(|edges|);
    SharedSearch(edges, DepthFirst.Unnumbered(|edges|), DepthFirst.Zeros(|edges|), start, 0)
  }

  /** Blocks A, B, C as 0, 1, 2, with edges A to B, B to A and A to C. */
  function Triangle(): (edges: seq<seq<nat>>)
    ensures DepthFirst.EdgesInRange(edges) && |edges| == 3
    ensures DepthFirst.Reachable(edges, 0, 2)
  {
    var edges := [[1, 2], [0], []];
    assert DepthFirst.IsPath(edges, [0, 2]);
    edges
  }

  /**
   * As written (JavaScript): the search from A numbers A and B only.  B's
   * loop leaves the shared index at 1, A's loop goes on from 2 and never
   * looks at C, which is reachable.
   */
  lemma SharedIndexSkipsReachable()
    ensures SharedSearchAll(Triangle(), 0).number == [0, 1, DepthFirst.Unvisited]
  {
    var edges := Triangle();
    DepthFirst.AllUnvisited(3);
    var n0 := DepthFirst.Unnumbered(3);
    var z := DepthFirst.Zeros(3);
    var n1 := n0[0 := 0];
    DepthFirst.NumberOne(n0, 0, 0);
    var n2 := n1[1 := 1];
    DepthFirst.NumberOne(n1, 1, 1);
    assert SharedEdges(edges, n2, z, 1, 1, 1) == SharedSearched(n2, z, 1, 1);
    assert SharedEdges(edges, n2, z, 1, 1, 0) == SharedSearched(n2, z, 1, 1);
    var inner := SharedSearch(edges, n1, z, 1, 1);
    assert inner == SharedSearched(n2, z[1 := 1], 1, 1);
    assert SharedEdges(edges, n2, z[1 := 1], 0, 1, 2) == SharedSearched(n2, z[1 := 1], 1, 2);
    assert SharedEdges(edges, n1, z, 0, 0, 0) == SharedSearched(n2, z[1 := 1], 1, 2);
    assert n2 == [0, 1, DepthFirst.Unvisited];
  }

  /** Intended, as the reference search does it: C is numbered, like every block reachable from A. */
  lemma SearchNumbersReachable()
    ensures DepthFirst.SearchAll(Triangle(), 0).number[2] != DepthFirst.Unvisited
  {
    DepthFirst.NumberedIffReachable(Triangle(), 0, 2);
  }
}
