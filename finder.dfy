/**
 * Havlak's loop-recognition algorithm (the HavlakLoopFinder of the C++
 * port, FindLoops of the Go ports, findLoops of the JavaScript port).
 * Blocks are numbered in DFS preorder; union-find node `k` belongs to the
 * block numbered `k`; loops are created in the loop structure graph, inner
 * loops first.  The slices FindLoops works on (`number`, `last`, `header`,
 * `types`, `backPreds`, `nonBackPreds`) are fields of the finder that its
 * steps reassign.
 */
module Finder {
  import opened Options
  import opened UnionFind
  import opened DepthFirst
  import opened Havlak
  import Cfg
  import Lsg
  import opened LoopCreation

  /** The port whose behaviour a run follows, where the ports differ. */
  datatype Port = Go | GoPro | Cpp | Js

  /**
   * The loop made for header block `b` of class `t` before its body is
   * collapsed into it, numbered `counter`: the Go ports take a loop from
   * NewLoop (not reducible until told), the C++ and JavaScript ports from
   * CreateNewLoop; every port but C++ sets the header, which also makes `b`
   * a member; Go records whether `t` is not irreducible, go_pro only sets
   * reducible in that case, and JavaScript records the opposite.  The C++
   * loop has no reducibility field, so the model gives it the default
   * `true`.  It has no parent and no children yet.
   */
  function Opened(port: Port, counter: nat, b: nat, t: BlockClass): (r: Lsg.SimpleLoop)
    ensures r.children == {} && r.parent == None && !r.isRoot && r.counter == counter
    ensures r.header.Some? <==> port != Cpp
    ensures r.header.Some? ==> r.header.value == b && r.basicBlocks == {b}
    ensures port == Cpp ==> r.basicBlocks == {} && r.isReducible
    ensures port == Go || port == GoPro ==> (r.isReducible <==> t != Irreducible)
    ensures port == Js ==> (r.isReducible <==> t == Irreducible)
  {
    match port
    case Go => Lsg.FreshLoop(counter, false).(header := Some(b), basicBlocks := {b}, isReducible := t != Irreducible)
    case GoPro => Lsg.FreshLoop(counter, t != Irreducible).(header := Some(b), basicBlocks := {b})
    case Cpp => Lsg.FreshLoop(counter, true)
    case Js => Lsg.FreshLoop(counter, true).(header := Some(b), basicBlocks := {b}, isReducible := t == Irreducible)
  }

  /**
   * What the loop over headers keeps of the loop structure graph (arena
   * `store`, list `loops`, counters `cv` process-wide and `lcv` per graph)
   * against its state `s0`, `loops0`, `c0`, `lc0` before the run: the loops
   * that were there are untouched, every new loop is listed in the order it
   * was made and took the next number of the counter its port uses, and each
   * new loop has a header exactly when the port sets one, which is then one
   * of its blocks.
   */
  ghost predicate GrownFrom(port: Port, s0: seq<Lsg.SimpleLoop>, loops0: seq<nat>, c0: nat, lc0: nat,
                            store: seq<Lsg.SimpleLoop>, loops: seq<nat>, cv: nat, lcv: nat)
  {
    && |s0| <= |store| && store[..|s0|] == s0
    && loops == loops0 + Span(|s0|, |store|)
    && (if port.Go? || port.GoPro? then cv == c0 + (|store| - |s0|) && lcv == lc0 else cv == c0 && lcv == lc0 + (|store| - |s0|))
    && (forall l | |s0| <= l < |store| :: store[l].counter == (if port.Go? || port.GoPro? then c0 else lc0) + (l - |s0|))
    && HeadersKept(store, |s0|, port.Cpp?)
  }

  /**
   * Creating one loop, numbered by the port's counter and collapsed over a
   * body whose nodes own only loops of this run, keeps GrownFrom.
   */
  lemma GrownStep(port: Port, s0: seq<Lsg.SimpleLoop>, loops0: seq<nat>, c0: nat, lc0: nat,
                  st: seq<Lsg.SimpleLoop>, listed: seq<nat>, cv: nat, lcv: nat, b: nat, t: BlockClass,
                  pool: seq<nat>, loop0: seq<Option<nat>>, bbOf: seq<Option<nat>>)
    requires GrownFrom(port, s0, loops0, c0, lc0, st, listed, cv, lcv)
    requires Owners(pool, loop0, bbOf, |st|)
    requires forall x | 0 <= x < |loop0| && loop0[x].Some? :: |s0| <= loop0[x].value < |st|
    ensures var made := Opened(port, if port.Go? || port.GoPro? then cv else lcv, b, t);
      && Owners(pool, loop0, bbOf, |st| + 1)
      && GrownFrom(port, s0, loops0, c0, lc0, CollapseAll(st + [made], |st|, pool, loop0, bbOf, !port.GoPro?), listed + [|st|],
                   if port.Go? || port.GoPro? then cv + 1 else cv, if port.Go? || port.GoPro? then lcv else lcv + 1)
  {
    var made := Opened(port, if port.Go? || port.GoPro? then cv else lcv, b, t);
    CollapseKeepsOlder(st, made, pool, loop0, bbOf, !port.GoPro?, |s0|, port.Cpp?);
    assert Span(|s0|, |st|) + [|st|] == Span(|s0|, |st| + 1);
  }

  /**
   * What step f does for header `w` with body `body`, when `made`: the
   * new loop `|store0|`, `newLoop` collapsed over the body, is listed and
   * owned by `w`, and the body nodes get header `w`; otherwise the loop
   * structure graph, the loops the nodes own and the headers are as before.
   */
  ghost predicate Made(made: bool, w: nat, body: seq<nat>, newLoop: Lsg.SimpleLoop, link: bool,
                       store0: seq<Lsg.SimpleLoop>, store: seq<Lsg.SimpleLoop>, loops0: seq<nat>, loops: seq<nat>,
                       loop0: seq<Option<nat>>, loop: seq<Option<nat>>, header0: seq<nat>, header: seq<nat>, bbOf: seq<Option<nat>>)
  {
    if made then
      && loops == loops0 + [|store0|] && w < |loop0| && loop == loop0[w := Some(|store0|)]
      && header == Redirected(header0, body, w)
      && Owners(body, loop0, bbOf, |store0| + 1)
      && store == CollapseAll(store0 + [newLoop], |store0|, body, loop0, bbOf, link)
    else
      loops == loops0 && loop == loop0 && header == header0 && store == store0
  }

  /**
   * The loops from `from` on were made for the nodes `heads`, one each and
   * in order: each carries its node's block as header, except in C++, whose
   * loops get no header.
   */
  ghost predicate HeadedBy(store: seq<Lsg.SimpleLoop>, from: nat, heads: seq<nat>, bbOf: seq<Option<nat>>, cpp: bool)
  {
    && |store| == from + |heads|
    && forall i | 0 <= i < |heads| :: heads[i] < |bbOf| && store[from + i].header == (if cpp then None else bbOf[heads[i]])
  }

  /**
   * The loops of `store` from index `from` on are one per entry of `heads`,
   * in order, for a prefix of `heads`, each headed by its block (C++ leaves
   * the header unset).
   */
  ghost predicate HeadsFrom(store: seq<Lsg.SimpleLoop>, from: nat, heads: seq<nat>, cpp: bool)
  {
    && from <= |store| <= from + |heads|
    && forall l | from <= l < |store| :: store[l].header == if cpp then None else Some(heads[l - from])
  }

  /** Step f for header `w` adds `w` to the headed loops exactly when it makes a loop. */
  lemma HeadedStep(store0: seq<Lsg.SimpleLoop>, store: seq<Lsg.SimpleLoop>, from: nat, heads: seq<nat>, bbOf: seq<Option<nat>>,
                   cpp: bool, made: bool, w: nat, body: seq<nat>, newLoop: Lsg.SimpleLoop, link: bool, loops0: seq<nat>,
                   loops: seq<nat>, loop0: seq<Option<nat>>, loop: seq<Option<nat>>, header0: seq<nat>, header: seq<nat>)
    requires HeadedBy(store0, from, heads, bbOf, cpp)
    requires Made(made, w, body, newLoop, link, store0, store, loops0, loops, loop0, loop, header0, header, bbOf)
    requires made ==> w < |bbOf| && newLoop.header == (if cpp then None else bbOf[w])
    ensures HeadedBy(store, from, if made then heads + [w] else heads, bbOf, cpp)
  {
    if made {
      var grown := store0 + [newLoop];
      CollapseKeepsHeaders(grown, |store0|, body, loop0, bbOf, link);
      var heads' := heads + [w];
      assert |store| == from + |heads'|;
      forall i | 0 <= i < |heads'|
        ensures heads'[i] < |bbOf| && store[from + i].header == (if cpp then None else bbOf[heads'[i]])
      {
        assert store[from + i].header == grown[from + i].header;
        if i < |heads| {
          assert heads'[i] == heads[i] && grown[from + i] == store0[from + i];
        } else {
          assert heads'[i] == w && grown[from + i] == newLoop;
        }
      }
    }
  }

  /**
   * After header `w`, which was not bbSelf before step d, the loops made are
   * those of the headers down to `w`, or, when the run aborts at `w`, above
   * it.
   */
  lemma HeadedNext(store: seq<Lsg.SimpleLoop>, from: nat, back: seq<seq<nat>>, w: nat, bbOf: seq<Option<nat>>, cpp: bool,
                   made: bool, aborted: bool, t0: BlockClass)
    requires w < |back| && t0 != Self && made == (!aborted && (back[w] != [] || t0 == Self))
    requires HeadedBy(store, from, if made then LoopHeaders(back, w) + [w] else LoopHeaders(back, w), bbOf, cpp)
    ensures HeadedBy(store, from, LoopHeaders(back, if aborted then w else w - 1), bbOf, cpp)
  {
    var next := LoopHeaders(back, if aborted then w else w - 1);
    assert next == if made then LoopHeaders(back, w) + [w] else LoopHeaders(back, w);
  }

  /**
   * Read through the node-to-block table, the loops made for the headers
   * above `stop` are those of the first header blocks, in order.
   */
  lemma HeadedBlocks(store: seq<Lsg.SimpleLoop>, from: nat, back: seq<seq<nat>>, stop: int, bb: seq<Option<nat>>, cpp: bool,
                     blocks: seq<nat>)
    requires -1 <= stop <= |back| - 1 && HeadedBy(store, from, LoopHeaders(back, stop), bb, cpp)
    requires var heads := LoopHeaders(back, -1);
      |blocks| == |heads| && forall i | 0 <= i < |heads| :: heads[i] < |bb| && bb[heads[i]] == Some(blocks[i])
    ensures HeadsFrom(store, from, blocks, cpp) && (stop == -1 ==> |store| == from + |blocks|)
  {
    var heads := LoopHeaders(back, -1);
    LoopHeadersPrefix(back, -1, stop);
    forall l | from <= l < |store|
      ensures store[l].header == if cpp then None else Some(blocks[l - from])
    {
      var i := l - from;
      assert LoopHeaders(back, stop)[i] == heads[i];
    }
  }

  /** The union-find nodes own only loops numbered from `base` on. */
  ghost predicate LoopsFrom(loopOf: seq<Option<nat>>, base: nat)
  {
    forall x | 0 <= x < |loopOf| && loopOf[x].Some? :: base <= loopOf[x].value
  }

  /**
   * One pass of step f as the loop over headers sees it: after header `w`
   * makes a loop over the closed body `pool`, the loop structure graph is
   * still a forest owned by the union-find roots, it has grown by exactly
   * that loop, only nodes above `w - 1` are joined, and the nodes still own
   * only loops of this run.
   */
  lemma LoopMade(port: Port, s0: seq<Lsg.SimpleLoop>, loops0: seq<nat>, c0: nat, lc0: nat,
                 st: seq<Lsg.SimpleLoop>, listed: seq<nat>, cv: nat, lcv: nat, b: nat, t: BlockClass,
                 pool: seq<nat>, loop0: seq<Option<nat>>, bbOf: seq<Option<nat>>, p0: seq<nat>, p1: seq<nat>, root: nat, w: nat)
    requires LoopForest(st, root, listed, !port.GoPro?) && Owned(p0, loop0, st, root)
    requires GrownFrom(port, s0, loops0, c0, lc0, st, listed, cv, lcv) && LoopsFrom(loop0, |s0|)
    requires Above(p0, w) && w < |p0| && Owners(pool, loop0, bbOf, |st|)
    requires forall i | 0 <= i < |pool| :: pool[i] < |p0| && w < pool[i] && p0[pool[i]] == pool[i]
    requires p1 == Redirected(p0, pool, w)
    ensures var r := CollapseAll(st + [Opened(port, if port.Go? || port.GoPro? then cv else lcv, b, t)], |st|, pool, loop0, bbOf, !port.GoPro?);
      && LoopForest(r, root, listed + [|st|], !port.GoPro?) && Owned(p1, loop0[w := Some(|st|)], r, root)
      && GrownFrom(port, s0, loops0, c0, lc0, r, listed + [|st|],
                   if port.Go? || port.GoPro? then cv + 1 else cv, if port.Go? || port.GoPro? then lcv else lcv + 1)
      && Above(p1, w - 1) && LoopsFrom(loop0[w := Some(|st|)], |s0|)
  {
    JoinKeepsAbove(p0, p1, pool, w);
    CreateKeepsForest(st, Opened(port, if port.Go? || port.GoPro? then cv else lcv, b, t),
                      pool, loop0, bbOf, !port.GoPro?, p0, p1, root, listed, w);
    GrownStep(port, s0, loops0, c0, lc0, st, listed, cv, lcv, b, t, pool, loop0, bbOf);
  }

  /** Path compression keeps which nodes are representatives, so it keeps ownership. */
  lemma OwnedSameReps(p0: seq<nat>, p1: seq<nat>, loopOf: seq<Option<nat>>, store: seq<Lsg.SimpleLoop>, root: nat)
    requires Owned(p0, loopOf, store, root) && SameReps(p0, p1)
    ensures Owned(p1, loopOf, store, root)
  {
    forall x | 0 <= x < |p1| && p1[x] == x
      ensures p0[x] == x
    {
      assert Find(p0, x) == Find(p1, x) == x;
    }
  }

  /**
   * listContainsNode: whether `u` is in the list.  (The Go ports compare
   * union-find node pointers; a node is its DFS number here.)
   */
  method ListContainsNode(l: seq<nat>, u: nat) returns (found: bool)
    ensures found <==> u in l
  {
    var i := 0;
    while i < |l|
      invariant 0 <= i <= |l| && u !in l[..i]
    {
      if l[i] == u {
        return true;
      }
      i := i + 1;
    }
    assert l[..i] == l;
    return false;
  }

  class HavlakLoopFinder {
    const cfg: Cfg.Cfg
    const lsg: Lsg.Lsg
    var nodes: UnionFindNodes
    /** DFS number of each block, or Unvisited. */
    var number: seq<int>
    /** For each DFS number, the largest number in its DFS subtree. */
    var last: seq<int>
    var header: seq<nat>
    var types: seq<BlockClass>
    var backPreds: seq<seq<nat>>
    var nonBackPreds: seq<set<nat>>
    /** How many blocks DFS numbered. */
    ghost var reached: nat

    constructor (cfg: Cfg.Cfg, lsg: Lsg.Lsg)
      ensures this.cfg == cfg && this.lsg == lsg && fresh(nodes)
    {
      this.cfg := cfg;
      this.lsg := lsg;
      nodes := new UnionFindNodes(0);
      number, last, header, types, backPreds, nonBackPreds := [], [], [], [], [], [];
    }

    /** The numbering after the numbers `0..next-1` have been given, over the graph's out-edges. */
    ghost predicate Numbered(next: nat)
      reads this, cfg, nodes
    {
      nodes.Valid() && EdgesInRange(cfg.outEdges) && Sized(State(), |cfg.outEdges|) && Numbers(State(), next)
    }

    ghost function State(): Numbering
      reads this, nodes
    {
      Numbering(number, last, nodes.parent, nodes.bb, nodes.loop)
    }

    /**
     * DFS: numbers `block` with `current` and, in out-edge order, every
     * successor still unvisited when its turn comes, from `lastid + 1` on.
     * Returns the largest number given, which is also stored as
     * `last[current]`: the numbering is the reference Search's, and Visit
     * says what it does to the union-find nodes.
     */
    method DFS(block: nat, current: nat) returns (lastid: nat)
      requires Numbered(current) && block < |number| && number[block] == Unvisited
      modifies this`number, this`last, nodes
      ensures nodes.Valid() && Visited(cfg.outEdges, old(State()), State(), block, current, lastid)
      ensures var r := Search(cfg.outEdges, old(number), old(last), block, current);
        number == r.number && last == r.last && lastid == r.lastid
      decreases |UnvisitedBlocks(number)|, 0
    {
      assert block in UnvisitedBlocks(number);
      ghost var s0 := State();
      ghost var s1 := s0.(number := s0.number[block := current], parent := s0.parent[current := current],
                          bb := s0.bb[current := Some(block)], loop := s0.loop[current := None]);
      VisitingStart(cfg.outEdges, s0, s1, block, current);
      nodes.Init(current, block);
      number := number[block := current];
      lastid := VisitAll(block, current, s1);
      ghost var s2 := State();
      last := last[current := lastid];
      VisitDone(cfg.outEdges, s0, s1, s2, State(), block, current, lastid);
    }

    /**
     * DFS's loop over the out-edges of `block`, numbered `current`: every
     * successor still unvisited when its turn comes is visited, in order,
     * as the reference SearchEdges does it.
     */
    method VisitAll(block: nat, current: nat, ghost s1: Numbering) returns (lastid: nat)
      requires nodes.Valid() && EdgesInRange(cfg.outEdges) && Visiting(cfg.outEdges, s1, State(), block, current, current, 0)
      requires number == s1.number && last == s1.last
      modifies this`number, this`last, nodes
      ensures nodes.Valid() && Visiting(cfg.outEdges, s1, State(), block, current, lastid, |cfg.outEdges[block]|)
      ensures SearchEdges(cfg.outEdges, number, last, block, lastid, |cfg.outEdges[block]|)
        == SearchEdges(cfg.outEdges, s1.number, s1.last, block, current, 0)
      decreases |UnvisitedBlocks(number)|, 2
    {
      lastid := current;
      var i := 0;
      while i < |cfg.outEdges[block]|
        invariant nodes.Valid() && Visiting(cfg.outEdges, s1, State(), block, current, lastid, i)
        invariant SearchEdges(cfg.outEdges, number, last, block, lastid, i) == SearchEdges(cfg.outEdges, s1.number, s1.last, block, current, 0)
        decreases |cfg.outEdges[block]| - i
      {
        lastid := VisitSuccessor(block, current, lastid, i, s1);
        i := i + 1;
      }
    }

    /** The body of DFS's loop over the out-edges of `block`: visit the `i`-th successor if it is unvisited. */
    method VisitSuccessor(block: nat, current: nat, lastid: nat, i: nat, ghost s1: Numbering) returns (next: nat)
      requires nodes.Valid() && EdgesInRange(cfg.outEdges) && Visiting(cfg.outEdges, s1, State(), block, current, lastid, i)
      requires i < |cfg.outEdges[block]|
      modifies this`number, this`last, nodes
      ensures nodes.Valid() && Visiting(cfg.outEdges, s1, State(), block, current, next, i + 1)
      ensures SearchEdges(cfg.outEdges, number, last, block, next, i + 1) == SearchEdges(cfg.outEdges, old(number), old(last), block, lastid, i)
      decreases |UnvisitedBlocks(number)|, 1
    {
      var target := cfg.outEdges[block][i];
      next := lastid;
      if number[target] == Unvisited {
        ghost var mid := State();
        next := DFS(target, lastid + 1);
        VisitingStep(cfg.outEdges, s1, mid, State(), block, current, lastid, i, next);
      } else {
        VisitingSkip(cfg.outEdges, s1, State(), block, current, lastid, i);
      }
    }

    /** The slices step b reads and writes, one entry per block. */
    ghost predicate Slices(size: nat)
      reads this, cfg
    {
      && |cfg.inEdges| == size && |number| == size && |last| == size && |header| == size && |types| == size
      && |backPreds| == size && |nonBackPreds| == size
    }

    /**
     * The in-edge loop of step b for block `b`, numbered `w`: every numbered
     * predecessor's number goes to backPreds[w] if `w` is its ancestor and
     * into the set nonBackPreds[w] otherwise.
     */
    method ClassifyPredecessors(w: nat, b: nat)
      requires Slices(|number|) && NumberRange(number) && EdgesInRange(cfg.inEdges)
      requires w < |number| && b < |number| && backPreds[w] == [] && nonBackPreds[w] == {}
      modifies this`backPreds, this`nonBackPreds
      ensures backPreds == old(backPreds)[w := BackPredsOf(cfg.inEdges[b], number, last, w)]
      ensures nonBackPreds == old(nonBackPreds)[w := NonBackPredsOf(cfg.inEdges[b], number, last, w)]
    {
      var preds := cfg.inEdges[b];
      var i := 0;
      while i < |preds|
        invariant 0 <= i <= |preds|
        invariant backPreds == old(backPreds)[w := BackPredsOf(preds[..i], number, last, w)]
        invariant nonBackPreds == old(nonBackPreds)[w := NonBackPredsOf(preds[..i], number, last, w)]
      {
        assert preds[..i + 1][..i] == preds[..i];
        var v := number[preds[i]];
        if v != Unvisited {
          if IsAncestor(w, v, last) {
            backPreds := backPreds[w := backPreds[w] + [v]];
          } else {
            nonBackPreds := nonBackPreds[w := nonBackPreds[w] + {v}];
          }
        }
        i := i + 1;
      }
      assert preds[..i] == preds;
    }

    /**
     * Step b: every DFS number gets header 0 and, if no block holds it,
     * type Dead; otherwise type NonHeader and its predecessors split.
     */
    method ClassifyAll()
      requires Slices(|number|) && NumberRange(number) && EdgesInRange(cfg.inEdges) && |nodes.bb| == |number|
      requires forall k | 0 <= k < |number| :: backPreds[k] == [] && nonBackPreds[k] == {}
      requires forall k | 0 <= k < |number| && nodes.bb[k].Some? :: nodes.bb[k].value < |number|
      modifies this`header, this`types, this`backPreds, this`nonBackPreds
      ensures Slices(|number|)
      ensures forall k | 0 <= k < |number| ::
        header[k] == 0 && Classified(cfg.inEdges, number, last, k, nodes.bb[k], types[k], backPreds[k], nonBackPreds[k])
    {
      var w := 0;
      while w < |number|
        invariant 0 <= w <= |number| && Slices(|number|)
        invariant forall k | w <= k < |number| :: backPreds[k] == [] && nonBackPreds[k] == {}
        invariant forall k | 0 <= k < w ::
          header[k] == 0 && Classified(cfg.inEdges, number, last, k, nodes.bb[k], types[k], backPreds[k], nonBackPreds[k])
      {
        header := header[w := 0];
        types := types[w := NonHeader];
        var nodeW := nodes.bb[w];
        if nodeW.None? {
          types := types[w := Dead];
        } else {
          ClassifyPredecessors(w, nodeW.value);
        }
        w := w + 1;
      }
    }
 
    /**
     * Step a: fresh union-find nodes and slices for every block, every block
     * unvisited, then DFS from the start block.  The first `reached` numbers
     * go to the blocks DFS reaches, one to one, with nested intervals, and
     * every successor of a numbered block is numbered.
     */
    method NumberBlocks(start: nat)
      requires cfg.Valid() && start < |cfg.names|
      modifies this`nodes, this`number, this`last, this`header, this`types, this`backPreds, this`nonBackPreds, this`reached
      ensures fresh(nodes) && nodes.Valid() && Slices(|cfg.names|) && |nodes.parent| == |number|
      ensures NumberRange(number) && EdgesInRange(cfg.inEdges) && EdgesInRange(cfg.outEdges)
      ensures reached <= |number| && Bounded(last, 0, reached - 1) && Laminar(last, 0, reached - 1)
      ensures Numbers(State(), reached) && number[start] == 0
      ensures SuccessorsNumbered(cfg.outEdges, number, 0, reached - 1)
      ensures forall k | 0 <= k < |number| ::
        && nodes.parent[k] == k && nodes.loop[k] == None
        && backPreds[k] == [] && nonBackPreds[k] == {}
      ensures var r := SearchAll(cfg.outEdges, start); number == r.number && last == r.last && reached == r.lastid + 1
    {
      Reset();
      ghost var s0 := State();
      var lastid := DFS(start, 0);
      reached := lastid + 1;
      VisitedFromStart(cfg.outEdges, s0, State(), start, lastid);
    }

    /** Step a before the DFS: fresh union-find nodes and slices for every block, every block unvisited. */
    method Reset()
      requires cfg.Valid()
      modifies this`nodes, this`number, this`last, this`header, this`types, this`backPreds, this`nonBackPreds
      ensures fresh(nodes) && Numbered(0) && Slices(|cfg.names|) && EdgesInRange(cfg.inEdges)
      ensures number == Unnumbered(|cfg.names|) && last == Zeros(|cfg.names|)
      ensures forall k | 0 <= k < |number| ::
        nodes.parent[k] == k && nodes.loop[k] == None && backPreds[k] == [] && nonBackPreds[k] == {}
    {
      var size := cfg.NumNodes();
      nodes := new UnionFindNodes(size);
      number := Unnumbered(size);
      last := Zeros(size);
      header := seq(size, k => 0);
      types := seq(size, k => Top);
      backPreds := seq(size, k => []);
      nonBackPreds := seq(size, k => {});
      NumbersStart(State(), size);
    }

    /**
     * Steps a and b for a graph with a start block: the numbering, every
     * number classified, and header 0 for the start block's number.
     */
    method Prepare(start: nat)
      requires cfg.Valid() && start < |cfg.names|
      modifies this`nodes, this`number, this`last, this`header, this`types, this`backPreds, this`nonBackPreds, this`reached
      ensures fresh(nodes) && Tables() && Joined(|number| - 1) && |number| == |cfg.names|
      ensures |header| == |number| && |types| == |number| && nodes.bb[0] == Some(start)
      ensures NumberRange(number) && EdgesInRange(cfg.inEdges)
      ensures forall k | 0 <= k < |number| ::
        && nodes.loop[k] == None && header[k] == 0
        && Classified(cfg.inEdges, number, last, k, nodes.bb[k], types[k], backPreds[k], nonBackPreds[k])
      ensures var r := SearchAll(cfg.outEdges, start); number == r.number && last == r.last
      ensures Numbers(State(), reached)
      ensures forall k | 0 <= k < |number| ::
        && types[k] != Self
        && backPreds[k] == if nodes.bb[k].Some? then BackPredsOf(cfg.inEdges[nodes.bb[k].value], number, last, k) else []
    {
      NumberBlocks(start);
      ClassifyAll();
      header := header[0 := 0];
      forall k, i | 0 <= k < |backPreds| && 0 <= i < |backPreds[k]|
        ensures backPreds[k][i] < |number| && IsAncestor(k, backPreds[k][i], last)
      {
        assert Classified(cfg.inEdges, number, last, k, nodes.bb[k], types[k], backPreds[k], nonBackPreds[k]);
      }
      forall k | 0 <= k < |number|
        ensures && types[k] != Self
                && backPreds[k] == if nodes.bb[k].Some? then BackPredsOf(cfg.inEdges[nodes.bb[k].value], number, last, k) else []
      {
        assert Classified(cfg.inEdges, number, last, k, nodes.bb[k], types[k], backPreds[k], nonBackPreds[k]);
      }
    }

    /**
     * Steps a and b as FindLoops sees them: the tables are ready for step c,
     * and `headers` lists the loop-header blocks from the highest DFS number
     * down.
     */
    method Survey(start: nat) returns (ghost headers: seq<nat>)
      requires cfg.Valid() && start < |cfg.names|
      modifies this`nodes, this`number, this`last, this`header, this`types, this`backPreds, this`nonBackPreds, this`reached
      ensures fresh(nodes) && Tables() && Joined(|number| - 1) && |number| == |cfg.names|
      ensures |header| == |number| && |types| == |number| && nodes.bb[0] == Some(start)
      ensures forall k | 0 <= k < |number| :: nodes.loop[k] == None && header[k] == 0
      ensures forall k | 0 <= k < |number| :: types[k] != Self && (backPreds[k] != [] ==> nodes.bb[k].Some?)
      ensures headers == BlocksOf(nodes.bb, LoopHeaders(backPreds, -1))
      ensures var r := SearchAll(cfg.outEdges, start); LoopHeaderBlocks(cfg.inEdges, r.number, r.last, headers)
    {
      Prepare(start);
      headers := BlocksOf(nodes.bb, LoopHeaders(backPreds, -1));
      HeaderBlocksExact(cfg.inEdges, number, last, nodes.bb, backPreds, headers);
    }

    /**
     * What steps c to e read but never write: the first `reached` numbers
     * are the blocks DFS reached, their DFS intervals are nested, and every
     * back predecessor lies inside the interval of the node it belongs to.
     */
    ghost predicate Tables()
      reads this`nodes, this`number, this`last, this`backPreds, this`reached, nodes`bb
    {
      && |nodes.bb| == |number| && |last| == |number| && |backPreds| == |number|
      && reached <= |number| && Bounded(last, 0, reached - 1)
      && (forall k | 0 <= k < |number| :: nodes.bb[k].Some? <==> k < reached)
      && (forall k, i | 0 <= k < |backPreds| && 0 <= i < |backPreds[k]| ::
            backPreds[k][i] < |number| && IsAncestor(k, backPreds[k][i], last))
    }

    /**
     * The union-find while header `w` is next: only nodes above `w` have
     * been joined, and only into nodes above `w`; non-back predecessors
     * name nodes.
     */
    ghost predicate Joined(w: int)
      reads this`nodes, this`number, this`nonBackPreds, nodes`parent, nodes`bb, nodes`loop
    {
      && nodes.Valid() && |nodes.parent| == |number| && -1 <= w < |number|
      && Above(nodes.parent, w)
      && |nonBackPreds| == |number| && NonBackInRange(nonBackPreds, |number|)
    }

    /**
     * FindSet on node `v` while header `w` is next: path compression keeps
     * every representative and the working state.
     */
    method Representative(w: nat, v: nat) returns (r: nat)
      requires Joined(w) && v < |number|
      modifies nodes`parent
      ensures Joined(w)
      ensures SameReps(old(nodes.parent), nodes.parent) && RootsKept(old(nodes.parent), nodes.parent)
      ensures r == Find(old(nodes.parent), v) && nodes.parent[r] == r
    {
      ghost var p0 := nodes.parent;
      r := nodes.FindSet(v);
      CompressKeepsAbove(p0, nodes.parent, v, w);
    }

    /**
     * Step d: the initial body of the loop headed by `w` holds the
     * representative of every back predecessor other than `w`; a back-edge
     * from `w` to itself makes `w` bbSelf, and a non-empty initial body
     * makes it bbReducible instead.
     */
    method InitialPool(w: nat) returns (pool: seq<nat>)
      requires Tables() && Joined(w) && w < |number| && |types| == |number|
      modifies this`types, nodes`parent
      ensures Joined(w) && SameReps(old(nodes.parent), nodes.parent)
      ensures pool == Reps(old(nodes.parent), backPreds[w], w)
      ensures PoolInside(pool, |pool|, w, nodes.parent, last)
      ensures types == old(types)[w := Initial(pool, w in backPreds[w], old(types[w]))]
    {
      var self;
      pool, self := Representatives(w, backPreds[w]);
      if self {
        types := types[w := Self];
      }
      if |pool| != 0 {
        types := types[w := Reducible];
      }
    }

    /** The loop of step d over `back`, the back predecessors of `w`. */
    method Representatives(w: nat, back: seq<nat>) returns (pool: seq<nat>, self: bool)
      requires Tables() && Joined(w) && w < |number| && back == backPreds[w]
      modifies nodes`parent
      ensures Joined(w) && SameReps(old(nodes.parent), nodes.parent)
      ensures pool == Reps(old(nodes.parent), back, w) && self == (w in back)
      ensures PoolInside(pool, |pool|, w, nodes.parent, last)
    {
      ghost var p0 := nodes.parent;
      pool := [];
      self := false;
      var i := 0;
      while i < |back|
        invariant 0 <= i <= |back| && Joined(w)
        invariant SameReps(p0, nodes.parent) && RootsKept(p0, nodes.parent)
        invariant pool == Reps(p0, back[..i], w) && self == (w in back[..i])
      {
        RepsStep(p0, back, i, w);
        var v := back[i];
        if v != w {
          var r := Representative(w, v);
          pool := pool + [r];
        } else {
          self := true;
        }
        i := i + 1;
      }
      assert back[..i] == back;
      RepsInside(p0, back, w, last);
    }

    /**
     * One non-back predecessor `y` of a body member, in step e: if its
     * representative lies outside `w`'s DFS interval, `w` becomes
     * irreducible and the representative one of its non-back predecessors;
     * otherwise the representative joins the body and the worklist unless
     * it is `w` or already in the body.  Nothing else changes.
     */
    method ChaseOne(w: nat, y: nat, pool: seq<nat>, from: nat, work: seq<nat>) returns (pool': seq<nat>, work': seq<nat>)
      requires Tables() && Joined(w) && w < |number| && |types| == |number| && y < |number|
      requires from <= |pool| && PoolInside(pool, from, w, nodes.parent, last)
      modifies this`types, this`nonBackPreds, nodes`parent
      ensures Joined(w) && |types| == |number| && SameReps(old(nodes.parent), nodes.parent)
      ensures var r := Find(old(nodes.parent), y);
        if IsAncestor(w, r, last) then
          && types == old(types) && nonBackPreds == old(nonBackPreds)
          && pool' == if r == w || r in pool then pool else pool + [r]
        else
          && types == old(types)[w := Irreducible] && nonBackPreds == old(nonBackPreds)[w := old(nonBackPreds[w]) + {r}]
          && pool' == pool
      ensures pool <= pool' && work' == work + pool'[|pool|..] && PoolInside(pool', from, w, nodes.parent, last)
      ensures Widened(w, old(nonBackPreds), nonBackPreds, old(types), types)
      ensures Absorbed(w, Find(nodes.parent, y), pool', nonBackPreds[w], last, types[w])
    {
      var ydash := Representative(w, y);
      pool', work' := pool, work;
      if !IsAncestor(w, ydash, last) {
        types := types[w := Irreducible];
        nonBackPreds := nonBackPreds[w := nonBackPreds[w] + {ydash}];
      } else if ydash != w {
        var found := ListContainsNode(pool, ydash);
        if !found {
          work' := work + [ydash];
          pool' := pool + [ydash];
        }
      }
    }

    /**
     * The loop of step e over the non-back predecessors of body member `x`
     * (in any order: a Go map, a C++ std::set, a JavaScript array): after
     * it every one of them is absorbed.  The representatives, under `p0`,
     * of those outside `w`'s interval are added to `w`'s non-back
     * predecessors and make `w` irreducible if there are any; the body
     * gains only representatives of those inside it.
     */
    method ChaseNonBackPreds(w: nat, x: nat, pool0: seq<nat>, from: nat, work0: seq<nat>, ghost p0: seq<nat>) returns (pool: seq<nat>, work: seq<nat>)
      requires Tables() && Joined(w) && w < |number| && |types| == |number| && x < |number| && x != w
      requires from <= |pool0| && PoolInside(pool0, from, w, nodes.parent, last) && SameReps(p0, nodes.parent)
      modifies this`types, this`nonBackPreds, nodes`parent
      ensures Joined(w) && |types| == |number| && SameReps(p0, nodes.parent)
      ensures pool0 <= pool && work == work0 + pool[|pool0|..] && PoolInside(pool, from, w, nodes.parent, last)
      ensures Widened(w, old(nonBackPreds), nonBackPreds, old(types), types)
      ensures forall y | y in nonBackPreds[x] :: y < |nodes.parent| && Absorbed(w, Find(nodes.parent, y), pool, nonBackPreds[w], last, types[w])
      ensures var out := SideReps(w, old(nonBackPreds[x]), p0, last, false);
        && nonBackPreds[w] == old(nonBackPreds[w]) + out
        && types[w] == if out == {} then old(types[w]) else Irreducible
      ensures forall i | |pool0| <= i < |pool| :: pool[i] in SideReps(w, old(nonBackPreds[x]), p0, last, true)
    {
      var todo := nonBackPreds[x];
      ghost var ys := todo;
      pool, work := pool0, work0;
      assert SideReps(w, ys - todo, p0, last, false) == {};
      while todo != {}
        invariant Joined(w) && |types| == |number| && SameReps(p0, nodes.parent)
        invariant pool0 <= pool && work == work0 + pool[|pool0|..] && PoolInside(pool, from, w, nodes.parent, last)
        invariant Widened(w, old(nonBackPreds), nonBackPreds, old(types), types)
        invariant todo <= ys && ys == nonBackPreds[x]
        invariant var out := SideReps(w, ys - todo, p0, last, false);
          && nonBackPreds[w] == old(nonBackPreds[w]) + out
          && types[w] == if out == {} then old(types[w]) else Irreducible
        invariant forall i | |pool0| <= i < |pool| :: pool[i] in SideReps(w, ys - todo, p0, last, true)
        invariant forall r | r in SideReps(w, ys - todo, p0, last, true) :: r == w || r in pool
        decreases todo
      {
        var y :| y in todo;
        ghost var done := ys - todo;
        todo := todo - {y};
        assert ys - todo == done + {y};
        ghost var (pool1, work1, nb1, t1) := (pool, work, nonBackPreds, types);
        pool, work := ChaseNext(w, y, pool, from, work, p0, done, |pool0|, old(nonBackPreds[w]), old(types[w]));
        QueuedBoth(pool0, pool1, pool, work0, work1, work);
        WidenedTrans(w, old(nonBackPreds), nb1, nonBackPreds, old(types), t1, types);
      }
      assert ys - todo == ys == old(nonBackPreds[x]);
      SidesAbsorbed(w, ys, pool, old(nonBackPreds[w]), nonBackPreds[w], p0, nodes.parent, last, old(types[w]), types[w]);
    }

    /**
     * One turn of ChaseNonBackPreds' loop, for the non-back predecessor `y`
     * of the member being absorbed, its predecessors `done` already chased:
     * ChaseOne extends the bookkeeping of the loop from `done` to `y`.
     */
    method ChaseNext(w: nat, y: nat, pool0: seq<nat>, from: nat, work0: seq<nat>, ghost p0: seq<nat>, ghost done: set<nat>,
                     ghost base: nat, ghost nbw0: set<nat>, ghost tw0: BlockClass) returns (pool: seq<nat>, work: seq<nat>)
      requires Tables() && Joined(w) && w < |number| && |types| == |number| && y < |number|
      requires from <= |pool0| && base <= |pool0| && PoolInside(pool0, from, w, nodes.parent, last) && SameReps(p0, nodes.parent)
      requires forall v | v in done :: v < |number|
      requires var out := SideReps(w, done, p0, last, false);
        && nonBackPreds[w] == nbw0 + out
        && types[w] == if out == {} then tw0 else Irreducible
      requires forall i | base <= i < |pool0| :: pool0[i] in SideReps(w, done, p0, last, true)
      requires forall r | r in SideReps(w, done, p0, last, true) :: r == w || r in pool0
      modifies this`types, this`nonBackPreds, nodes`parent
      ensures Joined(w) && |types| == |number| && SameReps(p0, nodes.parent)
      ensures pool0 <= pool && work == work0 + pool[|pool0|..] && PoolInside(pool, from, w, nodes.parent, last)
      ensures Widened(w, old(nonBackPreds), nonBackPreds, old(types), types)
      ensures var out := SideReps(w, done + {y}, p0, last, false);
        && nonBackPreds[w] == nbw0 + out
        && types[w] == if out == {} then tw0 else Irreducible
      ensures forall i | base <= i < |pool| :: pool[i] in SideReps(w, done + {y}, p0, last, true)
      ensures forall r | r in SideReps(w, done + {y}, p0, last, true) :: r == w || r in pool
    {
      assert Find(nodes.parent, y) == Find(p0, y);
      pool, work := ChaseOne(w, y, pool0, from, work0);
      ChaseStep(w, y, done, p0, last, pool0, pool, base, nbw0, tw0, old(nonBackPreds[w]), nonBackPreds[w], old(types[w]), types[w]);
    }

    /**
     * Steps d-e's worklist: FIFO over the body, starting from `pool0`,
     * chasing non-back predecessors until the body is closed, or until a
     * member has more than MaxNonBackPreds of them, which aborts the run.
     * The first `closed` members are absorbed: all of them when the run
     * goes on, all but the one that aborts it otherwise.  Every member
     * added was reached from an earlier one; `w` gains as non-back
     * predecessors the representatives outside its interval met from the
     * absorbed members, and becomes irreducible exactly when there are any.
     */
    method GrowPool(w: nat, pool0: seq<nat>, ghost p0: seq<nat>) returns (pool: seq<nat>, aborted: bool, ghost closed: nat)
      requires Tables() && Joined(w) && w < |number| && |types| == |number|
      requires PoolInside(pool0, |pool0|, w, nodes.parent, last) && SameReps(p0, nodes.parent)
      modifies this`types, this`nonBackPreds, nodes`parent
      ensures Joined(w) && |types| == |number| && SameReps(p0, nodes.parent)
      ensures pool0 <= pool && PoolInside(pool, |pool0|, w, nodes.parent, last)
      ensures Widened(w, old(nonBackPreds), nonBackPreds, old(types), types)
      ensures closed <= |pool| && (aborted <==> closed < |pool|)
      ensures forall i | 0 <= i < closed :: |nonBackPreds[pool[i]]| <= MaxNonBackPreds
      ensures aborted ==> |nonBackPreds[pool[closed]]| > MaxNonBackPreds
      ensures Closed(w, pool, closed, nonBackPreds, nodes.parent, last, types[w])
      ensures Tallied(w, pool, closed, |pool0|, old(nonBackPreds), p0, old(types[w]), nonBackPreds[w], types[w], last)
    {
      pool := pool0;
      var work := pool0;
      closed, aborted := 0, false;
      ghost var (nb0, t0) := (nonBackPreds, types);
      assert pool[..closed] == [];
      while |work| > 0
        invariant Joined(w) && |types| == |number| && SameReps(p0, nodes.parent)
        invariant pool0 <= pool && PoolInside(pool, |pool0|, w, nodes.parent, last)
        invariant Widened(w, nb0, nonBackPreds, t0, types)
        invariant 0 <= closed <= |pool| && work == pool[closed..]
        invariant forall i | 0 <= i < closed :: |nonBackPreds[pool[i]]| <= MaxNonBackPreds
        invariant Closed(w, pool, closed, nonBackPreds, nodes.parent, last, types[w])
        invariant Tallied(w, pool, closed, |pool0|, nb0, p0, t0[w], nonBackPreds[w], types[w], last)
        decreases Unpooled(pool, |number|), |work|
      {
        var x := work[0];
        if |nonBackPreds[x]| > MaxNonBackPreds {
          aborted := true;
          break;
        }
        pool, work := Absorb(w, x, closed, pool, |pool0|, work[1..], p0, nb0, t0);
        closed := closed + 1;
      }
    }

    /**
     * One turn of the worklist, for the body member `x` = `pool0[k]` just taken
     * off it: its non-back predecessors are chased, which closes it and
     * extends the bookkeeping of GrowPool, started from `p0`, `nb0` and
     * `t0`, to the first `k + 1` members; the worklist is again the part of
     * the body after it.
     */
    method Absorb(w: nat, x: nat, ghost k: nat, pool0: seq<nat>, from: nat, work0: seq<nat>,
                  ghost p0: seq<nat>, ghost nb0: seq<set<nat>>, ghost t0: seq<BlockClass>) returns (pool: seq<nat>, work: seq<nat>)
      requires Tables() && Joined(w) && w < |number| && |types| == |number|
      requires from <= |pool0| && k < |pool0| && x == pool0[k] && PoolInside(pool0, from, w, nodes.parent, last) && work0 == pool0[k + 1..]
      requires forall i | 0 <= i <= k :: |nonBackPreds[pool0[i]]| <= MaxNonBackPreds
      requires Closed(w, pool0, k, nonBackPreds, nodes.parent, last, types[w])
      requires SameReps(p0, nodes.parent) && Widened(w, nb0, nonBackPreds, t0, types) && NonBackInRange(nb0, |p0|)
      requires Tallied(w, pool0, k, from, nb0, p0, t0[w], nonBackPreds[w], types[w], last)
      modifies this`types, this`nonBackPreds, nodes`parent
      ensures Joined(w) && |types| == |number| && SameReps(p0, nodes.parent)
      ensures pool0 <= pool && PoolInside(pool, from, w, nodes.parent, last) && work == pool[k + 1..]
      ensures Widened(w, nb0, nonBackPreds, t0, types)
      ensures forall i | 0 <= i < k + 1 :: |nonBackPreds[pool[i]]| <= MaxNonBackPreds
      ensures Closed(w, pool, k + 1, nonBackPreds, nodes.parent, last, types[w])
      ensures pool == pool0 || Unpooled(pool, |number|) < Unpooled(pool0, |number|)
      ensures Tallied(w, pool, k + 1, from, nb0, p0, t0[w], nonBackPreds[w], types[w], last)
    {
      pool, work := ChaseNonBackPreds(w, x, pool0, from, work0, p0);
      ClosedStep(w, pool0, pool, k, old(nonBackPreds), nonBackPreds, old(nodes.parent), nodes.parent, last, old(types)[w], types[w]);
      WorkAdvances(pool0, pool, k, work);
      if |pool| > |pool0| {
        UnpooledShrinks(pool0, pool, from, |number|);
      }
      WidenedTrans(w, nb0, old(nonBackPreds), nonBackPreds, t0, old(types), types);
      BoundKept(w, pool0, pool, k, old(nonBackPreds), nonBackPreds, MaxNonBackPreds);
      assert old(nonBackPreds[x]) == nb0[x];
      TallyStep(w, pool0, pool, k, from, nb0, p0, t0[w], old(nonBackPreds[w]), old(types[w]), nonBackPreds[w], types[w], last);
    }

    /**
     * The loop structure graph as loop creation keeps it: a forest below the
     * root whose children name their parents (and, except on go_pro, whose
     * parents list their children), the root never an orphan, and every
     * loop owned by the union-find node of its header.
     */
    ghost predicate Forest(port: Port)
      reads this`nodes, nodes`parent, nodes`loop, lsg
    {
      && lsg.Valid() && LoopForest(lsg.store, lsg.root, lsg.loops, !port.GoPro?)
      && Owned(nodes.parent, nodes.loop, lsg.store, lsg.root)
    }

    /**
     * The start of step f for header `w` of block `b`: a new loop, numbered
     * by the process-wide counter in the Go ports and by the graph's own
     * counter in the C++ and JavaScript ports, with its header and
     * reducibility set as the port sets them.
     */
    method OpenLoop(w: nat, b: nat, port: Port, counter: Lsg.LoopCounter) returns (l: nat)
      requires lsg.Valid() && w < |types|
      modifies lsg, counter
      ensures lsg.Valid() && lsg.root == old(lsg.root) && lsg.loops == old(lsg.loops) && l == old(|lsg.store|)
      ensures lsg.store == old(lsg.store) + [Opened(port, if port.Go? || port.GoPro? then old(counter.value) else old(lsg.loopCounter), b, types[w])]
      ensures if port.Go? || port.GoPro? then counter.value == old(counter.value) + 1 && lsg.loopCounter == old(lsg.loopCounter)
              else counter.value == old(counter.value) && lsg.loopCounter == old(lsg.loopCounter) + 1
    {
      if port.Go? || port.GoPro? {
        l := lsg.NewLoop(counter);
      } else {
        l := lsg.CreateNewLoop();
      }
      match port {
        case Go =>
          lsg.SetHeader(l, b);
          lsg.SetIsReducible(l, types[w] != Irreducible);
        case GoPro =>
          lsg.SetHeader(l, b);
          if types[w] != Irreducible {
            lsg.SetIsReducible(l, true);
          }
        case Cpp =>
        case Js =>
          lsg.SetHeader(l, b);
          lsg.SetIsReducible(l, types[w] == Irreducible);
      }
      assert lsg.store[l] == Opened(port, if port.Go? || port.GoPro? then old(counter.value) else old(lsg.loopCounter), b, types[w]);
      assert lsg.store == old(lsg.store) + [lsg.store[l]];
    }

    /**
     * Step f for header `w` whose body `pool` is closed: a new loop `l`,
     * owned by `w`, gets the blocks of body nodes that head no loop, and the
     * loops body nodes head become its children (on go_pro they only name it
     * as parent); the body nodes get header `w` and are joined to `w`, and
     * `l` is listed.  The loop structure graph stays a forest the nesting
     * pass can walk, and only nodes above `w - 1` have been joined.
     */
    method CreateLoop(w: nat, pool: seq<nat>, port: Port, counter: Lsg.LoopCounter) returns (l: nat)
      requires Tables() && Joined(w) && w < reached && |header| == |number| && |types| == |number|
      requires PoolInside(pool, |pool|, w, nodes.parent, last)
      requires lsg.Valid() && Owned(nodes.parent, nodes.loop, lsg.store, lsg.root)
      modifies this`header, nodes`parent, nodes`loop, lsg, counter
      ensures nodes.Valid() && |nodes.parent| == |number| && |header| == |number| && lsg.Valid()
      ensures l == old(|lsg.store|) && lsg.root == old(lsg.root) && lsg.loops == old(lsg.loops) + [l]
      ensures lsg.store == CollapseAll(old(lsg.store) + [Opened(port, if port.Go? || port.GoPro? then old(counter.value) else old(lsg.loopCounter),
                                                                 nodes.bb[w].value, types[w])],
                                       l, pool, old(nodes.loop), nodes.bb, !port.GoPro?)
      ensures if port.Go? || port.GoPro? then counter.value == old(counter.value) + 1 && lsg.loopCounter == old(lsg.loopCounter)
              else counter.value == old(counter.value) && lsg.loopCounter == old(lsg.loopCounter) + 1
      ensures nodes.loop == old(nodes.loop)[w := Some(l)]
      ensures header == Redirected(old(header), pool, w) && nodes.parent == Redirected(old(nodes.parent), pool, w)
    {
      ghost var (s0, loop0, p0) := (lsg.store, nodes.loop, nodes.parent);
      assert nodes.parent[w] == w;
      assert Owners(pool, loop0, nodes.bb, |s0|);
      l := OpenLoop(w, nodes.bb[w].value, port, counter);
      ghost var made := lsg.store[l];
      assert lsg.store == s0 + [made];
      nodes.SetLoop(w, l);
      CollapseAllLocal(lsg.store, l, pool, loop0, nodes.loop, nodes.bb, !port.GoPro?);
      Collapse(w, l, pool, !port.GoPro?);
      lsg.AddLoop(l);
    }

    /** Grown of the current loop structure graph and counter. */
    ghost predicate Grown(port: Port, s0: seq<Lsg.SimpleLoop>, loops0: seq<nat>, c0: nat, lc0: nat, counter: Lsg.LoopCounter)
      reads lsg, counter
    {
      GrownFrom(port, s0, loops0, c0, lc0, lsg.store, lsg.loops, counter.value, lsg.loopCounter)
    }

    /** The union-find nodes own only loops made in this run, those from `base` on. */
    ghost predicate OwnsNew(base: nat)
      reads this`nodes, nodes`loop
    {
      LoopsFrom(nodes.loop, base)
    }

    /**
     * Steps d to f for one header `w`, the body of the loop over headers in
     * descending DFS order: nothing for a dead number; otherwise the body
     * BuildPool finds, which may abort the run, and a new loop when `w` has
     * a back predecessor (or was bbSelf already).  `body` is the body as
     * far as it was found: it starts with the representatives of the back
     * predecessors, every later member was reached from an earlier one, the
     * run aborts exactly when a member has too many non-back predecessors,
     * and an unaborted body is closed.
     */
    method ProcessHeader(w: nat, port: Port, counter: Lsg.LoopCounter, ghost s0: seq<Lsg.SimpleLoop>, ghost loops0: seq<nat>,
                         ghost c0: nat, ghost lc0: nat) returns (aborted: bool, ghost body: seq<nat>)
      requires Tables() && Joined(w) && w < |number| && |header| == |number| && |types| == |number|
      requires Forest(port) && Grown(port, s0, loops0, c0, lc0, counter) && OwnsNew(|s0|)
      requires types[w] != Self && (backPreds[w] != [] ==> nodes.bb[w].Some?)
      requires HeadedBy(lsg.store, |s0|, LoopHeaders(backPreds, w), nodes.bb, port.Cpp?)
      modifies this`header, this`types, this`nonBackPreds, nodes`parent, nodes`loop, lsg, counter
      ensures Joined(w - 1) && |header| == |number| && |types| == |number|
      ensures Forest(port) && Grown(port, s0, loops0, c0, lc0, counter) && OwnsNew(|s0|) && lsg.root == old(lsg.root)
      ensures HeadedBy(lsg.store, |s0|, LoopHeaders(backPreds, if aborted then w else w - 1), nodes.bb, port.Cpp?)
      ensures types == old(types)[w := types[w]] && nonBackPreds == old(nonBackPreds)[w := nonBackPreds[w]]
      ensures nodes.bb[w].None? ==> !aborted && body == [] && types[w] == old(types[w]) && nonBackPreds[w] == old(nonBackPreds[w])
      ensures forall i | 0 <= i < |body| :: w < body[i] < |number|
      ensures aborted ==> exists x | 0 <= x < |nonBackPreds| :: |nonBackPreds[x]| > MaxNonBackPreds
      ensures nodes.bb[w].Some? ==>
        Worked(w, backPreds[w], body, aborted, old(nonBackPreds), old(nodes.parent), old(types[w]), nonBackPreds, types[w], last)
      ensures nodes.bb[w].None? ==>
        Made(false, w, body, Lsg.FreshLoop(0, false), !port.GoPro?, old(lsg.store), lsg.store, old(lsg.loops), lsg.loops,
             old(nodes.loop), nodes.loop, old(header), header, nodes.bb)
      ensures nodes.bb[w].Some? ==>
        Made(!aborted && (backPreds[w] != [] || old(types[w]) == Self), w, body,
             Opened(port, if port.Go? || port.GoPro? then old(counter.value) else old(lsg.loopCounter), nodes.bb[w].value, types[w]),
             !port.GoPro?, old(lsg.store), lsg.store, old(lsg.loops), lsg.loops, old(nodes.loop), nodes.loop, old(header), header, nodes.bb)
    {
      if nodes.bb[w].None? {
        aborted, body := false, [];
        JoinKeepsAbove(nodes.parent, nodes.parent, [], w);
        HeadedNext(lsg.store, |s0|, backPreds, w, nodes.bb, port.Cpp?, false, false, types[w]);
      } else {
        aborted, body := ProcessLive(w, port, counter, s0, loops0, c0, lc0);
        HeadedStep(old(lsg.store), lsg.store, |s0|, LoopHeaders(backPreds, w), nodes.bb, port.Cpp?,
                   !aborted && (backPreds[w] != [] || old(types[w]) == Self), w, body,
                   Opened(port, if port.Go? || port.GoPro? then old(counter.value) else old(lsg.loopCounter), nodes.bb[w].value, types[w]),
                   !port.GoPro?, old(lsg.loops), lsg.loops, old(nodes.loop), nodes.loop, old(header), header);
        HeadedNext(lsg.store, |s0|, backPreds, w, nodes.bb, port.Cpp?,
                   !aborted && (backPreds[w] != [] || old(types[w]) == Self), aborted, old(types[w]));
      }
    }

    /** ProcessHeader as the loop over headers sees it: what it keeps, the loops made so far and the meaning of an abort. */
    method HeaderTurn(w: nat, port: Port, counter: Lsg.LoopCounter, ghost s0: seq<Lsg.SimpleLoop>, ghost loops0: seq<nat>,
                      ghost c0: nat, ghost lc0: nat) returns (aborted: bool)
      requires Tables() && Joined(w) && w < |number| && |header| == |number| && |types| == |number|
      requires Forest(port) && Grown(port, s0, loops0, c0, lc0, counter) && OwnsNew(|s0|)
      requires types[w] != Self && (backPreds[w] != [] ==> nodes.bb[w].Some?)
      requires HeadedBy(lsg.store, |s0|, LoopHeaders(backPreds, w), nodes.bb, port.Cpp?)
      modifies this`header, this`types, this`nonBackPreds, nodes`parent, nodes`loop, lsg, counter
      ensures Joined(w - 1) && |header| == |number| && |types| == |number|
      ensures Forest(port) && Grown(port, s0, loops0, c0, lc0, counter) && OwnsNew(|s0|) && lsg.root == old(lsg.root)
      ensures HeadedBy(lsg.store, |s0|, LoopHeaders(backPreds, if aborted then w else w - 1), nodes.bb, port.Cpp?)
      ensures types == old(types)[w := types[w]]
      ensures aborted ==> exists x | 0 <= x < |nonBackPreds| :: |nonBackPreds[x]| > MaxNonBackPreds
    {
      ghost var body;
      aborted, body := ProcessHeader(w, port, counter, s0, loops0, c0, lc0);
    }

    /** ProcessHeader for a live header `w`. */
    method ProcessLive(w: nat, port: Port, counter: Lsg.LoopCounter, ghost s0: seq<Lsg.SimpleLoop>, ghost loops0: seq<nat>,
                       ghost c0: nat, ghost lc0: nat) returns (aborted: bool, ghost body: seq<nat>)
      requires Tables() && Joined(w) && w < |number| && |header| == |number| && |types| == |number| && nodes.bb[w].Some?
      requires Forest(port) && Grown(port, s0, loops0, c0, lc0, counter) && OwnsNew(|s0|)
      modifies this`header, this`types, this`nonBackPreds, nodes`parent, nodes`loop, lsg, counter
      ensures Joined(w - 1) && |header| == |number| && |types| == |number|
      ensures Forest(port) && Grown(port, s0, loops0, c0, lc0, counter) && OwnsNew(|s0|) && lsg.root == old(lsg.root)
      ensures types == old(types)[w := types[w]] && nonBackPreds == old(nonBackPreds)[w := nonBackPreds[w]]
      ensures forall i | 0 <= i < |body| :: w < body[i] < |number|
      ensures Worked(w, backPreds[w], body, aborted, old(nonBackPreds), old(nodes.parent), old(types[w]), nonBackPreds, types[w], last)
      ensures Made(!aborted && (backPreds[w] != [] || old(types[w]) == Self), w, body,
                   Opened(port, if port.Go? || port.GoPro? then old(counter.value) else old(lsg.loopCounter), nodes.bb[w].value, types[w]),
                   !port.GoPro?, old(lsg.store), lsg.store, old(lsg.loops), lsg.loops, old(nodes.loop), nodes.loop, old(header), header, nodes.bb)
    {
      ghost var p0 := nodes.parent;
      var pool;
      ghost var closed;
      pool, aborted, closed := BuildPool(w);
      body := pool;
      OwnedSameReps(p0, nodes.parent, nodes.loop, lsg.store, lsg.root);
      FinishHeader(w, pool, aborted, !aborted && (backPreds[w] != [] || old(types[w]) == Self), port, counter, s0, loops0, c0, lc0);
    }

    /**
     * The end of step f for header `w` with body `pool`: unless the run
     * aborted, a loop is made exactly when the body is not empty or `w` is
     * bbSelf; `made` names that condition.
     */
    method FinishHeader(w: nat, pool: seq<nat>, aborted: bool, ghost made: bool, port: Port, counter: Lsg.LoopCounter,
                        ghost s0: seq<Lsg.SimpleLoop>, ghost loops0: seq<nat>, ghost c0: nat, ghost lc0: nat)
      requires Tables() && Joined(w) && w < reached && |header| == |number| && |types| == |number|
      requires made == (!aborted && (|pool| > 0 || types[w] == Self))
      requires PoolInside(pool, |pool|, w, nodes.parent, last)
      requires Forest(port) && Grown(port, s0, loops0, c0, lc0, counter) && OwnsNew(|s0|)
      modifies this`header, nodes`parent, nodes`loop, lsg, counter
      ensures Joined(w - 1) && |header| == |number|
      ensures Forest(port) && Grown(port, s0, loops0, c0, lc0, counter) && OwnsNew(|s0|) && lsg.root == old(lsg.root)
      ensures Made(made, w, pool,
                   Opened(port, if port.Go? || port.GoPro? then old(counter.value) else old(lsg.loopCounter), nodes.bb[w].value, types[w]),
                   !port.GoPro?, old(lsg.store), lsg.store, old(lsg.loops), lsg.loops, old(nodes.loop), nodes.loop, old(header), header, nodes.bb)
    {
      if !aborted && (|pool| > 0 || types[w] == Self) {
        MakeLoop(w, pool, port, counter, s0, loops0, c0, lc0);
      } else {
        JoinKeepsAbove(nodes.parent, nodes.parent, [], w);
      }
    }

    /**
     * Steps d and e for a live header `w`: the initial body from the back
     * predecessors, bbReducible when it is not empty (overriding bbSelf),
     * then the worklist.  The body starts with the initial one and is empty
     * exactly when that is; GrowPool says what else holds.
     */
    method BuildPool(w: nat) returns (pool: seq<nat>, aborted: bool, ghost closed: nat)
      requires Tables() && Joined(w) && w < |number| && |types| == |number|
      modifies this`types, this`nonBackPreds, nodes`parent
      ensures Joined(w) && |types| == |number| && SameReps(old(nodes.parent), nodes.parent)
      ensures var reps := Reps(old(nodes.parent), backPreds[w], w);
        && reps <= pool && (pool == [] <==> reps == [])
        && PoolInside(pool, |pool|, w, nodes.parent, last)
      ensures closed <= |pool| && (aborted <==> closed < |pool|)
      ensures forall i | 0 <= i < closed :: |nonBackPreds[pool[i]]| <= MaxNonBackPreds
      ensures aborted ==> |nonBackPreds[pool[closed]]| > MaxNonBackPreds
      ensures Closed(w, pool, closed, nonBackPreds, nodes.parent, last, types[w])
      ensures nonBackPreds == old(nonBackPreds)[w := nonBackPreds[w]] && types == old(types)[w := types[w]]
      ensures Tallied(w, pool, closed, |Reps(old(nodes.parent), backPreds[w], w)|, old(nonBackPreds), old(nodes.parent),
                      Initial(Reps(old(nodes.parent), backPreds[w], w), w in backPreds[w], old(types[w])),
                      nonBackPreds[w], types[w], last)
      ensures Worked(w, backPreds[w], pool, aborted, old(nonBackPreds), old(nodes.parent), old(types[w]), nonBackPreds, types[w], last)
      ensures !aborted ==> ((|pool| > 0 || types[w] == Self) <==> (backPreds[w] != [] || old(types[w]) == Self))
    {
      ghost var p0 := nodes.parent;
      pool := InitialPool(w);
      ghost var (reps, t1) := (pool, types);
      pool, aborted, closed := GrowPool(w, pool, p0);
      UpdatedTwice(old(types), w, t1[w], types[w]);
      if reps == [] {
        FedNone(w, pool, old(nonBackPreds), p0, last);
      }
      if !aborted {
        assert pool[..closed] == pool;
        ClosedSameReps(w, pool, closed, nonBackPreds, p0, nodes.parent, last, types[w]);
        LoopTest(w, backPreds[w], pool, old(nonBackPreds), p0, old(types[w]), nonBackPreds[w], types[w], last);
      }
    }

    /** Step f as ProcessHeader runs it: CreateLoop keeps what the loop over headers keeps. */
    method MakeLoop(w: nat, pool: seq<nat>, port: Port, counter: Lsg.LoopCounter, ghost s0: seq<Lsg.SimpleLoop>,
                    ghost loops0: seq<nat>, ghost c0: nat, ghost lc0: nat)
      requires Tables() && Joined(w) && w < reached && |header| == |number| && |types| == |number|
      requires PoolInside(pool, |pool|, w, nodes.parent, last)
      requires Forest(port) && Grown(port, s0, loops0, c0, lc0, counter) && OwnsNew(|s0|)
      modifies this`header, nodes`parent, nodes`loop, lsg, counter
      ensures Joined(w - 1) && |header| == |number|
      ensures Forest(port) && Grown(port, s0, loops0, c0, lc0, counter) && OwnsNew(|s0|) && lsg.root == old(lsg.root)
      ensures lsg.loops == old(lsg.loops) + [old(|lsg.store|)] && nodes.loop == old(nodes.loop)[w := Some(old(|lsg.store|))]
      ensures header == Redirected(old(header), pool, w)
      ensures Owners(pool, old(nodes.loop), nodes.bb, |lsg.store|)
      ensures lsg.store == CollapseAll(old(lsg.store) + [Opened(port, if port.Go? || port.GoPro? then old(counter.value) else old(lsg.loopCounter),
                                                                 nodes.bb[w].value, types[w])],
                                       old(|lsg.store|), pool, old(nodes.loop), nodes.bb, !port.GoPro?)
    {
      ghost var (st, listed, cv, lcv, loopBefore, p0) := (lsg.store, lsg.loops, counter.value, lsg.loopCounter, nodes.loop, nodes.parent);
      assert nodes.parent[w] == w;
      assert Owners(pool, loopBefore, nodes.bb, |st|);
      var l := CreateLoop(w, pool, port, counter);
      LoopMade(port, s0, loops0, c0, lc0, st, listed, cv, lcv, nodes.bb[w].value, types[w], pool, loopBefore, nodes.bb,
               p0, nodes.parent, lsg.root, w);
    }

    /**
     * The loop over the body in step f: each node gets header `w` and is
     * joined to `w`; the loop it heads, if any, gets `l` as parent (linked
     * both ways when `link`), and otherwise its block becomes a member of `l`.
     */
    method Collapse(w: nat, l: nat, pool: seq<nat>, link: bool)
      requires nodes.Valid() && |header| == |nodes.parent| && w < |nodes.parent| && lsg.Valid() && l < |lsg.store|
      requires forall i | 0 <= i < |pool| :: w < pool[i] < |nodes.parent|
      requires Owners(pool, nodes.loop, nodes.bb, |lsg.store|)
      modifies this`header, nodes`parent, lsg
      ensures nodes.Valid() && lsg.Valid() && lsg.root == old(lsg.root) && lsg.loops == old(lsg.loops)
      ensures lsg.loopCounter == old(lsg.loopCounter) && |header| == old(|header|)
      ensures lsg.store == CollapseAll(old(lsg.store), l, pool, nodes.loop, nodes.bb, link)
      ensures header == Redirected(old(header), pool, w) && nodes.parent == Redirected(old(nodes.parent), pool, w)
    {
      var i := 0;
      while i < |pool|
        invariant 0 <= i <= |pool| && nodes.Valid() && |header| == |nodes.parent| && |nodes.parent| == old(|nodes.parent|)
        invariant lsg.Valid() && lsg.root == old(lsg.root) && lsg.loops == old(lsg.loops) && lsg.loopCounter == old(lsg.loopCounter)
        invariant Owners(pool[..i], nodes.loop, nodes.bb, |lsg.store|)
        invariant lsg.store == CollapseAll(old(lsg.store), l, pool[..i], nodes.loop, nodes.bb, link)
        invariant header == Redirected(old(header), pool[..i], w) && nodes.parent == Redirected(old(nodes.parent), pool[..i], w)
        decreases |pool| - i
      {
        CollapseStep(old(lsg.store), l, pool, i, nodes.loop, nodes.bb, link);
        RedirectStep(old(header), pool, i, w);
        RedirectStep(old(nodes.parent), pool, i, w);
        CollapseNode(w, l, pool[i], link);
        i := i + 1;
      }
      assert pool[..i] == pool;
    }

    /** One step of Collapse, for body node `x`. */
    method CollapseNode(w: nat, l: nat, x: nat, link: bool)
      requires nodes.Valid() && |header| == |nodes.parent| && w < x < |nodes.parent| && lsg.Valid() && l < |lsg.store|
      requires nodes.bb[x].Some? && (nodes.loop[x].Some? ==> nodes.loop[x].value < |lsg.store|)
      modifies this`header, nodes`parent, lsg
      ensures nodes.Valid() && lsg.Valid() && lsg.root == old(lsg.root) && lsg.loops == old(lsg.loops)
      ensures lsg.loopCounter == old(lsg.loopCounter)
      ensures header == old(header)[x := w] && nodes.parent == old(nodes.parent)[x := w]
      ensures lsg.store == CollapseOne(old(lsg.store), l, nodes.loop[x], nodes.bb[x].value, link)
    {
      header := header[x := w];
      nodes.Union(x, w);
      match nodes.loop[x]
      case Some(c) =>
        if link {
          lsg.SetParent(c, l);
        } else {
          lsg.SetParentField(c, l);
        }
      case None =>
        lsg.AddNode(l, nodes.bb[x].value);
    }

        /**
     * FindLoops: steps a to f on the whole graph, then the loop structure
     * graph has grown by the new loops.  Without a start block nothing
     * happens.  Otherwise `headers` lists the loop-header blocks (reached,
     * with a predecessor inside their DFS interval), each once, from the
     * highest DFS number down; the new loops are made for a prefix of that
     * list, in order, each headed by its block except in C++; the prefix is
     * the whole list unless the run aborts, and it aborts only on a graph
     * with more than MaxNonBackPreds blocks.  The Go ports index their
     * tables by block name, so there the names must be 0..n-1.
     */
    method FindLoops(port: Port, counter: Lsg.LoopCounter) returns (aborted: bool, ghost headers: seq<nat>)
      requires cfg.Valid() && lsg.Valid() && LoopForest(lsg.store, lsg.root, lsg.loops, !port.GoPro?)
      requires port.Go? || port.GoPro? ==> cfg.NamesAreIndices()
      modifies this, lsg, counter
      ensures lsg.Valid() && LoopForest(lsg.store, lsg.root, lsg.loops, !port.GoPro?) && lsg.root == old(lsg.root)
      ensures GrownFrom(port, old(lsg.store), old(lsg.loops), old(counter.value), old(lsg.loopCounter),
                        lsg.store, lsg.loops, counter.value, lsg.loopCounter)
      ensures cfg.startNode.None? ==> !aborted && headers == [] && lsg.store == old(lsg.store) && lsg.loops == old(lsg.loops)
      ensures cfg.startNode.Some? ==>
        var r := SearchAll(cfg.outEdges, cfg.startNode.value); LoopHeaderBlocks(cfg.inEdges, r.number, r.last, headers)
      ensures HeadsFrom(lsg.store, |old(lsg.store)|, headers, port.Cpp?)
      ensures !aborted ==> |lsg.store| == |old(lsg.store)| + |headers|
      ensures aborted ==> MaxNonBackPreds < |cfg.names|
    {
      aborted, headers := false, [];
      if cfg.startNode.None? {
        return;
      }
      ghost var (s0, loops0, c0, lc0) := (lsg.store, lsg.loops, counter.value, lsg.loopCounter);
      headers := Survey(cfg.startNode.value);
      assert Span(|s0|, |s0|) == [];
      aborted := ProcessAll(port, counter, s0, loops0, c0, lc0, headers);
    }

    /**
     * Step c as FindLoops sees it: the new loops are one per block of
     * `blocks`, the loop headers from the highest DFS number down, in that
     * order, for a prefix of it that is all of it unless the run aborts,
     * and an abort needs more than MaxNonBackPreds blocks.
     */
    method ProcessAll(port: Port, counter: Lsg.LoopCounter, ghost s0: seq<Lsg.SimpleLoop>, ghost loops0: seq<nat>,
                      ghost c0: nat, ghost lc0: nat, ghost blocks: seq<nat>) returns (aborted: bool)
      requires Tables() && Joined(|number| - 1) && |header| == |number| && |types| == |number|
      requires Forest(port) && Grown(port, s0, loops0, c0, lc0, counter) && OwnsNew(|s0|) && |lsg.store| == |s0|
      requires forall k | 0 <= k < |number| :: types[k] != Self && (backPreds[k] != [] ==> nodes.bb[k].Some?)
      requires blocks == BlocksOf(nodes.bb, LoopHeaders(backPreds, -1))
      modifies this`header, this`types, this`nonBackPreds, nodes`parent, nodes`loop, lsg, counter
      ensures lsg.Valid() && LoopForest(lsg.store, lsg.root, lsg.loops, !port.GoPro?) && lsg.root == old(lsg.root)
      ensures Grown(port, s0, loops0, c0, lc0, counter)
      ensures HeadsFrom(lsg.store, |s0|, blocks, port.Cpp?) && (!aborted ==> |lsg.store| == |s0| + |blocks|)
      ensures aborted ==> MaxNonBackPreds < |number|
    {
      ghost var (bb, back) := (nodes.bb, backPreds);
      ghost var stop;
      aborted, stop := ProcessHeaders(port, counter, s0, loops0, c0, lc0);
      HeadedBlocks(lsg.store, |s0|, back, stop, bb, port.Cpp?, blocks);
      if aborted {
        ghost var x :| 0 <= x < |nonBackPreds| && |nonBackPreds[x]| > MaxNonBackPreds;
        NodeSetSize(nonBackPreds[x], |number|);
      }
    }

    /**
     * Step c: every DFS number from the last down to 0 is tried as a header,
     * so inner loops are made before the loops around them; the first
     * abort ends the run.  The run stops at `stop` (-1 when it went through):
     * the new loops are one per number above `stop` with a back predecessor,
     * in that order, and an abort means some node has more than
     * MaxNonBackPreds non-back predecessors.
     */
    method ProcessHeaders(port: Port, counter: Lsg.LoopCounter, ghost s0: seq<Lsg.SimpleLoop>, ghost loops0: seq<nat>,
                          ghost c0: nat, ghost lc0: nat) returns (aborted: bool, ghost stop: int)
      requires Tables() && Joined(|number| - 1) && |header| == |number| && |types| == |number|
      requires Forest(port) && Grown(port, s0, loops0, c0, lc0, counter) && OwnsNew(|s0|) && |lsg.store| == |s0|
      requires forall k | 0 <= k < |number| :: types[k] != Self && (backPreds[k] != [] ==> nodes.bb[k].Some?)
      modifies this`header, this`types, this`nonBackPreds, nodes`parent, nodes`loop, lsg, counter
      ensures Forest(port) && Grown(port, s0, loops0, c0, lc0, counter) && lsg.root == old(lsg.root)
      ensures -1 <= stop < |number| && (aborted <==> stop != -1)
      ensures HeadedBy(lsg.store, |s0|, LoopHeaders(backPreds, stop), nodes.bb, port.Cpp?)
      ensures |nonBackPreds| == |number| && NonBackInRange(nonBackPreds, |number|)
      ensures aborted ==> exists x | 0 <= x < |nonBackPreds| :: |nonBackPreds[x]| > MaxNonBackPreds
    {
      aborted, stop := false, -1;
      var w := |number| - 1;
      while w >= 0
        invariant -1 <= w < |number| && Tables() && Joined(w) && |header| == |number| && |types| == |number|
        invariant Forest(port) && Grown(port, s0, loops0, c0, lc0, counter) && OwnsNew(|s0|) && lsg.root == old(lsg.root)
        invariant forall k | 0 <= k <= w :: types[k] != Self
        invariant HeadedBy(lsg.store, |s0|, LoopHeaders(backPreds, w), nodes.bb, port.Cpp?)
        decreases w
      {
        aborted := HeaderTurn(w, port, counter, s0, loops0, c0, lc0);
        if aborted {
          stop := w;
          break;
        }
        w := w - 1;
      }
    }
  }

  /**
   * FindHavlakLoops, the entry point: a finder for the graph runs FindLoops
   * and the number of loops in the graph's list is returned, except that the
   * JavaScript port returns 0 when the run aborts.  `headers` lists the
   * loop-header blocks from the highest DFS number down; a run that does
   * not abort lists one new loop for each, headed by it except in C++, and
   * only a graph with more than MaxNonBackPreds blocks can abort.  The
   * JavaScript port does not check for a start block, so it is only called
   * with one; the Go ports need the block names to be 0..n-1.
   */
  method FindHavlakLoops(cfg: Cfg.Cfg, lsg: Lsg.Lsg, port: Port, counter: Lsg.LoopCounter)
    returns (n: nat, ghost aborted: bool, ghost headers: seq<nat>)
    requires cfg.Valid() && lsg.Valid() && LoopForest(lsg.store, lsg.root, lsg.loops, !port.GoPro?)
    requires port.Js? ==> cfg.startNode.Some?
    requires port.Go? || port.GoPro? ==> cfg.NamesAreIndices()
    modifies lsg, counter
    ensures lsg.Valid() && LoopForest(lsg.store, lsg.root, lsg.loops, !port.GoPro?)
    ensures GrownFrom(port, old(lsg.store), old(lsg.loops), old(counter.value), old(lsg.loopCounter),
                      lsg.store, lsg.loops, counter.value, lsg.loopCounter)
    ensures n == if port.Js? && aborted then 0 else |lsg.loops|
    ensures cfg.startNode.None? ==> !aborted && headers == [] && n == |old(lsg.loops)|
    ensures cfg.startNode.Some? ==>
      var r := SearchAll(cfg.outEdges, cfg.startNode.value); LoopHeaderBlocks(cfg.inEdges, r.number, r.last, headers)
    ensures |lsg.loops| <= |old(lsg.loops)| + |headers| && (!aborted ==> |lsg.loops| == |old(lsg.loops)| + |headers|)
    ensures HeadsFrom(lsg.store, |old(lsg.store)|, headers, port.Cpp?)
    ensures aborted ==> MaxNonBackPreds < |cfg.names|
  {
    var finder := new HavlakLoopFinder(cfg, lsg);
    var stopped;
    stopped, headers := finder.FindLoops(port, counter);
    aborted := stopped;
    if port.Js? && stopped {
      n := 0;
    } else {
      n := lsg.NumLoops();
    }
  }
}
