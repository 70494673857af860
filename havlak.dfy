/**
 * What the steps of Havlak's loop finder compute, stated over plain values:
 * the split of a block's in-edges into back-edges and non-back-edges (step
 * b), the representatives the initial loop body starts from (step d), and
 * the closure the worklist reaches (step e).  The finder's methods are
 * proved against these definitions.
 */
module Havlak {
  import opened Options
  import opened UnionFind
  import opened DepthFirst

  /** Classification of a block (bbTop … bbDead; the bbLast sentinel is never stored). */
  datatype BlockClass = Top | NonHeader | Reducible | Self | Irreducible | Dead

  /** Safeguard against pathological behaviour: more non-back predecessors than this abort the run. */
  const MaxNonBackPreds: nat := 32 * 1024

  /** Every entry of `number` is Unvisited or a DFS number below the number of blocks. */
  ghost predicate NumberRange(number: seq<int>)
  {
    forall b | 0 <= b < |number| :: Unvisited <= number[b] < |number|
  }

  /** The DFS numbers of the numbered blocks among `preds`, in order. */
  function NumberedPreds(preds: seq<nat>, number: seq<int>): (r: seq<nat>)
    requires NumberRange(number) && forall i | 0 <= i < |preds| :: preds[i] < |number|
    ensures |r| <= |preds| && forall i | 0 <= i < |r| :: r[i] < |number|
  {
    if preds == [] then []
    else
      var rest := NumberedPreds(preds[..|preds| - 1], number);
      var v := number[preds[|preds| - 1]];
      if v == Unvisited then rest else rest + [v as nat]
  }

  /**
   * backPreds[w] after step b: the numbers of the numbered predecessors of
   * `w`'s block that `w` is an ancestor of, in in-edge order, repeats kept.
   */
  function BackPredsOf(preds: seq<nat>, number: seq<int>, last: seq<int>, w: nat): (r: seq<nat>)
    requires NumberRange(number) && w < |last| && forall i | 0 <= i < |preds| :: preds[i] < |number|
    ensures forall i | 0 <= i < |r| :: r[i] < |number| && IsAncestor(w, r[i], last)
  {
    if preds == [] then []
    else
      var rest := BackPredsOf(preds[..|preds| - 1], number, last, w);
      var v := number[preds[|preds| - 1]];
      if v == Unvisited then rest
      else if IsAncestor(w, v as nat, last) then rest + [v as nat]
      else rest
  }

  /** nonBackPreds[w] after step b: the numbers of the other numbered predecessors, as a set. */
  function NonBackPredsOf(preds: seq<nat>, number: seq<int>, last: seq<int>, w: nat): (r: set<nat>)
    requires NumberRange(number) && w < |last| && forall i | 0 <= i < |preds| :: preds[i] < |number|
    ensures forall v | v in r :: v < |number| && !IsAncestor(w, v, last)
  {
    if preds == [] then {}
    else
      var rest := NonBackPredsOf(preds[..|preds| - 1], number, last, w);
      var v := number[preds[|preds| - 1]];
      if v == Unvisited then rest
      else if IsAncestor(w, v as nat, last) then rest
      else rest + {v as nat}
  }

  /**
   * Step b splits the numbered predecessors exactly: a number is a back
   * predecessor of `w` iff it belongs to a numbered predecessor and `w` is
   * its ancestor, and a non-back predecessor iff it belongs to a numbered
   * predecessor and `w` is not its ancestor.  Unnumbered predecessors are
   * dropped.
   */
  lemma {:induction false} BackPredsSplit(preds: seq<nat>, number: seq<int>, last: seq<int>, w: nat, v: nat)
    requires NumberRange(number) && w < |last| && forall i | 0 <= i < |preds| :: preds[i] < |number|
    ensures v in BackPredsOf(preds, number, last, w) <==> v in NumberedPreds(preds, number) && IsAncestor(w, v, last)
    ensures v in NonBackPredsOf(preds, number, last, w) <==> v in NumberedPreds(preds, number) && !IsAncestor(w, v, last)
  {
    if preds != [] {
      BackPredsSplit(preds[..|preds| - 1], number, last, w, v);
    }
  }

  /**
   * What step b leaves for DFS number `w` whose node holds block `bb`: a
   * dead slot without predecessors, or a non-header whose back and non-back
   * predecessors are the split of its block's in-edges.
   */
  ghost predicate Classified(inEdges: seq<seq<nat>>, number: seq<int>, last: seq<int>, w: nat, bb: Option<nat>,
                             t: BlockClass, back: seq<nat>, nonBack: set<nat>)
    requires NumberRange(number) && w < |last| && EdgesInRange(inEdges) && |inEdges| == |number|
  {
    match bb
    case None => t == Dead && back == [] && nonBack == {}
    case Some(b) =>
      && b < |inEdges| && t == NonHeader
      && back == BackPredsOf(inEdges[b], number, last, w)
      && nonBack == NonBackPredsOf(inEdges[b], number, last, w)
  }

  /**
   * Before header `w` is processed, only nodes numbered above `w` have been
   * unioned, and only into nodes numbered above `w`.
   */
  ghost predicate Above(parent: seq<nat>, w: int)
  {
    forall x | 0 <= x < |parent| && parent[x] != x :: w < x && w < parent[x]
  }

  /** Under Above, a node up to `w` is its own representative and a node above `w` has one above `w`. */
  lemma {:induction false} FindAbove(parent: seq<nat>, w: int, u: nat)
    requires Ordered(parent) && Above(parent, w) && u < |parent|
    ensures u <= w ==> Find(parent, u) == u
    ensures w < u ==> w < Find(parent, u)
    decreases u
  {
    if parent[u] != u {
      FindAbove(parent, w, parent[u]);
    }
  }

  /** Joining body nodes, all above `w`, to `w` leaves only nodes above `w - 1` joined. */
  lemma JoinKeepsAbove(p0: seq<nat>, p1: seq<nat>, pool: seq<nat>, w: nat)
    requires Above(p0, w)
    requires forall i | 0 <= i < |pool| :: w < pool[i]
    requires p1 == Redirected(p0, pool, w)
    ensures Above(p1, w - 1)
  {
  }

  /** Two parent arrays with the same representatives for every node. */
  ghost predicate SameReps(p0: seq<nat>, p1: seq<nat>)
  {
    |p0| == |p1| && Ordered(p0) && Ordered(p1) && forall k | 0 <= k < |p0| :: Find(p1, k) == Find(p0, k)
  }

  /** Self-parented nodes stay self-parented. */
  ghost predicate RootsKept(p0: seq<nat>, p1: seq<nat>)
  {
    |p0| == |p1| && forall k | 0 <= k < |p0| && p0[k] == k :: p1[k] == k
  }

  /** Path compression from `u` keeps Above and every self-parented node. */
  lemma CompressKeepsAbove(p0: seq<nat>, p1: seq<nat>, u: nat, w: int)
    requires Ordered(p0) && Above(p0, w) && u < |p0| && |p1| == |p0|
    requires forall k | 0 <= k < |p1| :: p1[k] == if k in Path(p0, u) then Find(p0, u) else p0[k]
    ensures Above(p1, w) && RootsKept(p0, p1)
  {
    PathShape(p0, u);
    if p0[u] != u {
      FindAbove(p0, w, u);
    }
  }

  /**
   * The initial loop body of step d: the representatives of the back
   * predecessors other than `w` itself, in order, repeats kept.
   */
  function Reps(parent: seq<nat>, back: seq<nat>, w: nat): (r: seq<nat>)
    requires Ordered(parent) && forall i | 0 <= i < |back| :: back[i] < |parent|
    ensures |r| <= |back| && forall i | 0 <= i < |r| :: r[i] < |parent| && parent[r[i]] == r[i]
  {
    if back == [] then []
    else
      var rest := Reps(parent, back[..|back| - 1], w);
      var v := back[|back| - 1];
      if v != w then rest + [Find(parent, v)] else rest
  }

  /**
   * The initial loop body lies strictly inside `w`'s DFS interval: its
   * members are descendants of `w` and never `w` itself.
   */
  lemma {:induction false} RepsInside(parent: seq<nat>, back: seq<nat>, w: nat, last: seq<int>)
    requires Ordered(parent) && Above(parent, w) && w < |last|
    requires forall i | 0 <= i < |back| :: back[i] < |parent| && IsAncestor(w, back[i], last)
    ensures forall i | 0 <= i < |Reps(parent, back, w)| ::
      var r := Reps(parent, back, w)[i]; w < r && IsAncestor(w, r, last)
  {
    if back != [] {
      RepsInside(parent, back[..|back| - 1], w, last);
      var v := back[|back| - 1];
      if v != w {
        FindAbove(parent, w, v);
      }
    }
  }

  /**
   * A representative `r` met while growing the body of `w` is taken care
   * of: it is `w`, it is in the body, or it lies outside `w`'s DFS
   * interval, is recorded as a non-back predecessor of `w`, and `w` is
   * irreducible.
   */
  ghost predicate Absorbed(w: nat, r: nat, pool: seq<nat>, nonBackW: set<nat>, last: seq<int>, t: BlockClass)
    requires w < |last|
  {
    r == w || r in pool || (!IsAncestor(w, r, last) && r in nonBackW && t == Irreducible)
  }

  /** The first `k` body members have had all their non-back predecessors absorbed. */
  ghost predicate Closed(w: nat, pool: seq<nat>, k: nat, nonBack: seq<set<nat>>, parent: seq<nat>, last: seq<int>, t: BlockClass)
    requires w < |last| && w < |nonBack| && Ordered(parent) && k <= |pool|
    requires forall i | 0 <= i < |pool| :: pool[i] < |nonBack|
  {
    forall i, y | 0 <= i < k && y in nonBack[pool[i]] ::
      y < |parent| && Absorbed(w, Find(parent, y), pool, nonBack[w], last, t)
  }

  /** The body members are self-parented nodes strictly inside `w`'s interval, without repeats from `from` on. */
  ghost predicate PoolInside(pool: seq<nat>, from: nat, w: nat, parent: seq<nat>, last: seq<int>)
    requires w < |last|
  {
    && (forall i | 0 <= i < |pool| :: pool[i] < |parent| && parent[pool[i]] == pool[i] && w < pool[i] && IsAncestor(w, pool[i], last))
    && (forall i, j | 0 <= i < j < |pool| && from <= j :: pool[i] != pool[j])
  }

  /** Every non-back predecessor is a node. */
  ghost predicate NonBackInRange(nonBack: seq<set<nat>>, n: nat)
  {
    forall x, y | 0 <= x < |nonBack| && y in nonBack[x] :: y < n
  }

  /**
   * One turn of the worklist keeps the first `k` members closed and closes
   * member `k`: representatives do not change, the body and nonBackPreds[w]
   * only grow, and `w` only ever becomes irreducible.
   */
  lemma ClosedStep(w: nat, pool: seq<nat>, pool': seq<nat>, k: nat, nb: seq<set<nat>>, nb': seq<set<nat>>,
                   p: seq<nat>, p': seq<nat>, last: seq<int>, t: BlockClass, t': BlockClass)
    requires w < |last| && w < |nb| && |nb'| == |nb| && Ordered(p) && SameReps(p, p') && k < |pool|
    requires pool <= pool' && forall i | 0 <= i < |pool'| :: pool'[i] < |nb| && pool'[i] != w
    requires Closed(w, pool, k, nb, p, last, t)
    requires nb' == nb[w := nb'[w]] && nb[w] <= nb'[w] && (t' == t || t' == Irreducible)
    requires forall y | y in nb'[pool[k]] :: y < |p'| && Absorbed(w, Find(p', y), pool', nb'[w], last, t')
    ensures Closed(w, pool', k + 1, nb', p', last, t')
  {
    forall i, y | 0 <= i < k + 1 && y in nb'[pool'[i]]
      ensures y < |p'| && Absorbed(w, Find(p', y), pool', nb'[w], last, t')
    {
      if i < k {
        assert pool'[i] == pool[i] && nb'[pool[i]] == nb[pool[i]];
        ClosedAt(w, pool, k, nb, p, last, t, i, y);
      }
    }
  }

  /** What Closed says about one non-back predecessor `y` of body member `pool[i]`. */
  lemma ClosedAt(w: nat, pool: seq<nat>, k: nat, nb: seq<set<nat>>, p: seq<nat>, last: seq<int>, t: BlockClass, i: nat, y: nat)
    requires w < |last| && w < |nb| && Ordered(p) && k <= |pool| && forall j | 0 <= j < |pool| :: pool[j] < |nb|
    requires Closed(w, pool, k, nb, p, last, t) && i < k && y in nb[pool[i]]
    ensures y < |p| && Absorbed(w, Find(p, y), pool, nb[w], last, t)
  {
  }

  /**
   * The representatives of the nodes `ys` on one side of `w`'s DFS
   * interval: inside it when `inside`, outside it otherwise.
   */
  ghost function SideReps(w: nat, ys: set<nat>, parent: seq<nat>, last: seq<int>, inside: bool): set<nat>
    requires w < |last| && Ordered(parent) && forall y | y in ys :: y < |parent|
  {
    set y | y in ys && IsAncestor(w, Find(parent, y), last) == inside :: Find(parent, y)
  }

  /**
   * Chasing one more non-back predecessor `y` keeps the bookkeeping of
   * the worklist: `w` holds the representatives outside its interval of
   * `done + {y}`, and the body the ones inside it.
   */
  lemma ChaseStep(w: nat, y: nat, done: set<nat>, p0: seq<nat>, last: seq<int>, pool0: seq<nat>, pool: seq<nat>, base: nat,
                  nbw0: set<nat>, tw0: BlockClass, nb0: set<nat>, nb1: set<nat>, t0: BlockClass, t1: BlockClass)
    requires w < |last| && Ordered(p0) && y < |p0| && forall v | v in done :: v < |p0|
    requires var out := SideReps(w, done, p0, last, false); nb0 == nbw0 + out && t0 == if out == {} then tw0 else Irreducible
    requires forall i | base <= i < |pool0| :: pool0[i] in SideReps(w, done, p0, last, true)
    requires forall r | r in SideReps(w, done, p0, last, true) :: r == w || r in pool0
    requires var r := Find(p0, y);
      if IsAncestor(w, r, last) then t1 == t0 && nb1 == nb0 && pool == if r == w || r in pool0 then pool0 else pool0 + [r]
      else t1 == Irreducible && nb1 == nb0 + {r} && pool == pool0
    ensures var out := SideReps(w, done + {y}, p0, last, false); nb1 == nbw0 + out && t1 == if out == {} then tw0 else Irreducible
    ensures forall i | base <= i < |pool| :: pool[i] in SideReps(w, done + {y}, p0, last, true)
    ensures forall r | r in SideReps(w, done + {y}, p0, last, true) :: r == w || r in pool
  {
    SideRepsAdd(w, done, y, p0, last, false);
    SideRepsAdd(w, done, y, p0, last, true);
  }

  /** SideReps over the non-back predecessors of every node of `members`. */
  ghost function SideRepsOf(w: nat, members: seq<nat>, nb: seq<set<nat>>, parent: seq<nat>, last: seq<int>, inside: bool): set<nat>
    requires w < |last| && Ordered(parent) && NonBackInRange(nb, |parent|)
    requires forall i | 0 <= i < |members| :: members[i] < |nb|
  {
    if members == [] then {}
    else SideRepsOf(w, members[..|members| - 1], nb, parent, last, inside) + SideReps(w, nb[members[|members| - 1]], parent, last, inside)
  }

  /** SideReps of one more node. */
  lemma SideRepsAdd(w: nat, ys: set<nat>, y: nat, parent: seq<nat>, last: seq<int>, inside: bool)
    requires w < |last| && Ordered(parent) && y < |parent| && forall v | v in ys :: v < |parent|
    ensures SideReps(w, ys + {y}, parent, last, inside) ==
      SideReps(w, ys, parent, last, inside) + if IsAncestor(w, Find(parent, y), last) == inside then {Find(parent, y)} else {}
  {
  }

  /**
   * Every node of `ys` is absorbed once the representatives inside `w`'s
   * interval are `w` or in the body and those outside it have been added
   * to `w`'s non-back predecessors, turning `w` irreducible if there are any.
   */
  lemma SidesAbsorbed(w: nat, ys: set<nat>, pool: seq<nat>, nbw0: set<nat>, nbw: set<nat>, p0: seq<nat>, p: seq<nat>,
                      last: seq<int>, t0: BlockClass, t: BlockClass)
    requires w < |last| && SameReps(p0, p) && forall y | y in ys :: y < |p0|
    requires nbw == nbw0 + SideReps(w, ys, p0, last, false)
    requires t == if SideReps(w, ys, p0, last, false) == {} then t0 else Irreducible
    requires forall r | r in SideReps(w, ys, p0, last, true) :: r == w || r in pool
    ensures forall y | y in ys :: y < |p| && Absorbed(w, Find(p, y), pool, nbw, last, t)
  {
    forall y | y in ys
      ensures y < |p| && Absorbed(w, Find(p, y), pool, nbw, last, t)
    {
      var r := Find(p0, y);
      assert Find(p, y) == r;
      if IsAncestor(w, r, last) {
        assert r in SideReps(w, ys, p0, last, true);
      } else {
        assert r in SideReps(w, ys, p0, last, false);
      }
    }
  }

  /** SideRepsOf one more body member. */
  lemma SideRepsOfStep(w: nat, pool: seq<nat>, k: nat, nb: seq<set<nat>>, parent: seq<nat>, last: seq<int>, inside: bool)
    requires w < |last| && Ordered(parent) && NonBackInRange(nb, |parent|)
    requires k < |pool| && forall i | 0 <= i < |pool| :: pool[i] < |nb|
    ensures SideRepsOf(w, pool[..k + 1], nb, parent, last, inside) ==
      SideRepsOf(w, pool[..k], nb, parent, last, inside) + SideReps(w, nb[pool[k]], parent, last, inside)
  {
    assert pool[..k + 1][..k] == pool[..k];
  }

  /** A representative met from member `members[k]` belongs to SideRepsOf of all members. */
  lemma {:induction false} SideRepsOfHas(w: nat, members: seq<nat>, k: nat, nb: seq<set<nat>>, parent: seq<nat>, last: seq<int>,
                                         inside: bool, v: nat)
    requires w < |last| && Ordered(parent) && NonBackInRange(nb, |parent|)
    requires k < |members| && forall i | 0 <= i < |members| :: members[i] < |nb|
    requires v in SideReps(w, nb[members[k]], parent, last, inside)
    ensures v in SideRepsOf(w, members, nb, parent, last, inside)
    decreases |members|
  {
    if k < |members| - 1 {
      SideRepsOfHas(w, members[..|members| - 1], k, nb, parent, last, inside, v);
    }
  }

  /**
   * Every body member from `from` on was reached: it is the representative,
   * inside `w`'s interval, of a non-back predecessor of an earlier member.
   */
  ghost predicate Fed(w: nat, pool: seq<nat>, from: nat, nb: seq<set<nat>>, parent: seq<nat>, last: seq<int>)
    requires w < |last| && Ordered(parent) && NonBackInRange(nb, |parent|) && forall i | 0 <= i < |pool| :: pool[i] < |nb|
  {
    forall i | from <= i < |pool| :: ReachedAt(w, pool, i, nb, parent, last)
  }

  /** Body member `pool[i]` is reached from the members before it. */
  ghost predicate ReachedAt(w: nat, pool: seq<nat>, i: nat, nb: seq<set<nat>>, parent: seq<nat>, last: seq<int>)
    requires w < |last| && Ordered(parent) && NonBackInRange(nb, |parent|) && forall i | 0 <= i < |pool| :: pool[i] < |nb|
  {
    i < |pool| && pool[i] in SideRepsOf(w, pool[..i], nb, parent, last, true)
  }

  /** Members appended while member `k` is absorbed, all reached from it, keep Fed. */
  lemma FedStep(w: nat, pool: seq<nat>, pool': seq<nat>, k: nat, from: nat, nb: seq<set<nat>>, parent: seq<nat>, last: seq<int>)
    requires w < |last| && Ordered(parent) && NonBackInRange(nb, |parent|) && forall i | 0 <= i < |pool'| :: pool'[i] < |nb|
    requires pool <= pool' && k < |pool| && Fed(w, pool, from, nb, parent, last)
    requires forall i | |pool| <= i < |pool'| :: pool'[i] in SideReps(w, nb[pool[k]], parent, last, true)
    ensures Fed(w, pool', from, nb, parent, last)
  {
    forall i | from <= i < |pool'|
      ensures ReachedAt(w, pool', i, nb, parent, last)
    {
      if i < |pool| {
        assert ReachedAt(w, pool, i, nb, parent, last);
        assert pool'[..i] == pool[..i];
      } else {
        assert pool'[..i][k] == pool[k];
        SideRepsOfHas(w, pool'[..i], k, nb, parent, last, true, pool'[i]);
      }
    }
  }

  /** Two updates of the same entry: the second wins. */
  lemma UpdatedTwice<T>(s: seq<T>, i: nat, a: T, b: T)
    requires i < |s|
    ensures s[i := a][i := b] == s[i := b]
  {
  }

  /**
   * The class of a header after step d, given the initial body `reps`, a
   * back-edge from the header to itself (`self`) and its class `t` before:
   * bbReducible when the initial body is not empty, else bbSelf when there
   * is such a back-edge, else `t`.
   */
  function Initial(reps: seq<nat>, self: bool, t: BlockClass): BlockClass
  {
    if reps != [] then Reducible else if self then Self else t
  }

  /**
   * The worklist's bookkeeping for header `w` once the first `k` body
   * members are absorbed, against nonBackPreds `nb0`, parents `p0` and
   * class `t0w` of `w` at its start: every member from `from` on was
   * reached, `w`'s non-back predecessors `nbw` gained exactly the
   * representatives outside its interval met from those members, and its
   * class `tw` turned irreducible exactly when there were any.
   */
  ghost predicate Tallied(w: nat, pool: seq<nat>, k: nat, from: nat, nb0: seq<set<nat>>, p0: seq<nat>, t0w: BlockClass,
                          nbw: set<nat>, tw: BlockClass, last: seq<int>)
    requires w < |last| && w < |nb0| && Ordered(p0) && NonBackInRange(nb0, |p0|)
    requires k <= |pool| && forall i | 0 <= i < |pool| :: pool[i] < |nb0|
  {
    && Fed(w, pool, from, nb0, p0, last)
    && var out := SideRepsOf(w, pool[..k], nb0, p0, last, false);
       nbw == nb0[w] + out && tw == if out == {} then t0w else Irreducible
  }

  /**
   * What steps d and e leave for header `w` with back predecessors `back`,
   * started from nonBackPreds `nb0`, parents `p0` and class `t0` of `w`,
   * ending with nonBackPreds `nb` and class `tw` of `w`: the body starts
   * with the representatives of the back predecessors and is empty exactly
   * when they are, every later member was reached from an earlier one, the
   * run aborts exactly when a member has more than MaxNonBackPreds non-back
   * predecessors, and otherwise the body is closed and Tallied.
   */
  ghost predicate Worked(w: nat, back: seq<nat>, pool: seq<nat>, aborted: bool, nb0: seq<set<nat>>, p0: seq<nat>, t0: BlockClass,
                         nb: seq<set<nat>>, tw: BlockClass, last: seq<int>)
    requires w < |last| && w < |nb0| && |nb| == |nb0| && Ordered(p0) && NonBackInRange(nb0, |p0|)
    requires (forall i | 0 <= i < |back| :: back[i] < |p0|) && forall i | 0 <= i < |pool| :: pool[i] < |nb0|
  {
    var reps := Reps(p0, back, w);
    && reps <= pool && (pool == [] <==> reps == [])
    && Fed(w, pool, |reps|, nb0, p0, last)
    && (aborted <==> exists i | 0 <= i < |pool| :: |nb[pool[i]]| > MaxNonBackPreds)
    && (!aborted ==>
          && Closed(w, pool, |pool|, nb, p0, last, tw)
          && Tallied(w, pool, |pool|, |reps|, nb0, p0, Initial(reps, w in back, t0), nb[w], tw, last))
  }

  /**
   * Go's test for making a loop, a non-empty body or class bbSelf, holds
   * after a closed body exactly when the header has a back predecessor or
   * was bbSelf before step d.
   */
  lemma LoopTest(w: nat, back: seq<nat>, pool: seq<nat>, nb0: seq<set<nat>>, p0: seq<nat>, t0: BlockClass,
                 nbw: set<nat>, tw: BlockClass, last: seq<int>)
    requires w < |last| && w < |nb0| && Ordered(p0) && NonBackInRange(nb0, |p0|)
    requires (forall i | 0 <= i < |back| :: back[i] < |p0|) && forall i | 0 <= i < |pool| :: pool[i] < |nb0|
    requires var reps := Reps(p0, back, w);
      && reps <= pool && (pool == [] <==> reps == [])
      && Tallied(w, pool, |pool|, |reps|, nb0, p0, Initial(reps, w in back, t0), nbw, tw, last)
    ensures (|pool| > 0 || tw == Self) <==> (back != [] || t0 == Self)
  {
    if Reps(p0, back, w) == [] {
      RepsNone(p0, back, w);
      assert pool[..|pool|] == [];
      if back != [] {
        assert back[0] == w;
      }
    }
  }

  /**
   * Absorbing member `k`, which appended only representatives inside `w`'s
   * interval of its non-back predecessors and added those outside it to
   * `w`'s, extends Tallied to the first `k + 1` members.
   */
  lemma TallyStep(w: nat, pool0: seq<nat>, pool: seq<nat>, k: nat, from: nat, nb0: seq<set<nat>>, p0: seq<nat>, t0w: BlockClass,
                  nbw1: set<nat>, tw1: BlockClass, nbw2: set<nat>, tw2: BlockClass, last: seq<int>)
    requires w < |last| && w < |nb0| && Ordered(p0) && NonBackInRange(nb0, |p0|)
    requires pool0 <= pool && k < |pool0| && forall i | 0 <= i < |pool| :: pool[i] < |nb0|
    requires Tallied(w, pool0, k, from, nb0, p0, t0w, nbw1, tw1, last)
    requires forall i | |pool0| <= i < |pool| :: pool[i] in SideReps(w, nb0[pool0[k]], p0, last, true)
    requires var out := SideReps(w, nb0[pool0[k]], p0, last, false);
      nbw2 == nbw1 + out && tw2 == if out == {} then tw1 else Irreducible
    ensures Tallied(w, pool, k + 1, from, nb0, p0, t0w, nbw2, tw2, last)
  {
    FedStep(w, pool0, pool, k, from, nb0, p0, last);
    assert pool[..k + 1] == pool0[..k + 1];
    SideRepsOfStep(w, pool0, k, nb0, p0, last, false);
  }

  /** A body all of whose members were reached from earlier ones is empty. */
  lemma FedNone(w: nat, pool: seq<nat>, nb: seq<set<nat>>, parent: seq<nat>, last: seq<int>)
    requires w < |last| && Ordered(parent) && NonBackInRange(nb, |parent|) && forall i | 0 <= i < |pool| :: pool[i] < |nb|
    requires Fed(w, pool, 0, nb, parent, last)
    ensures pool == []
  {
    assert pool[..0] == [];
    assert pool != [] ==> ReachedAt(w, pool, 0, nb, parent, last);
  }

  /** The nodes below `n` not yet in the body: the measure the worklist decreases. */
  ghost function Unpooled(pool: seq<nat>, n: nat): set<nat>
  {
    set v | 0 <= v < n && v !in pool
  }

  /**
   * Appending to the body a node below `n` makes Unpooled smaller when the
   * body has no repeats from `from` on (the appended node is then new).
   */
  lemma UnpooledShrinks(pool: seq<nat>, pool': seq<nat>, from: nat, n: nat)
    requires pool < pool' && from <= |pool| && pool'[|pool|] < n
    requires forall i, j | 0 <= i < j < |pool'| && from <= j :: pool'[i] != pool'[j]
    ensures Unpooled(pool', n) < Unpooled(pool, n)
  {
    var v := pool'[|pool|];
    assert v !in pool by {
      assert forall i | 0 <= i < |pool| :: pool[i] == pool'[i] && pool'[i] != v;
    }
    assert v in Unpooled(pool, n) && v !in Unpooled(pool', n);
  }

  /** Reps over one more back predecessor, and whether `w` is among them. */
  lemma RepsStep(parent: seq<nat>, back: seq<nat>, i: nat, w: nat)
    requires Ordered(parent) && i < |back| && forall j | 0 <= j < |back| :: back[j] < |parent|
    ensures Reps(parent, back[..i + 1], w) ==
      Reps(parent, back[..i], w) + if back[i] != w then [Find(parent, back[i])] else []
    ensures (w in back[..i + 1]) == (w in back[..i] || back[i] == w)
  {
    assert back[..i + 1][..i] == back[..i];
  }

  /** No representatives means every back predecessor is `w` itself. */
  lemma {:induction false} RepsNone(parent: seq<nat>, back: seq<nat>, w: nat)
    requires Ordered(parent) && forall i | 0 <= i < |back| :: back[i] < |parent|
    requires Reps(parent, back, w) == []
    ensures forall i | 0 <= i < |back| :: back[i] == w
  {
    if back != [] {
      var rest := Reps(parent, back[..|back| - 1], w);
      assert |rest + [Find(parent, back[|back| - 1])]| > 0;
      RepsNone(parent, back[..|back| - 1], w);
      forall i | 0 <= i < |back|
        ensures back[i] == w
      {
        if i < |back| - 1 {
          assert back[..|back| - 1][i] == back[i];
        }
      }
    }
  }

  /** A set of nodes below `n` has at most `n` members. */
  lemma {:induction false} NodeSetSize(s: set<nat>, n: nat)
    requires forall y | y in s :: y < n
    ensures |s| <= n
  {
    if n == 0 {
      assert s == {} by {
        forall y | y in s
          ensures false
        {
        }
      }
    } else {
      NodeSetSize(s - {n - 1}, n - 1);
    }
  }

  /** Closed depends on the parents only through their representatives. */
  lemma ClosedSameReps(w: nat, pool: seq<nat>, k: nat, nonBack: seq<set<nat>>, p: seq<nat>, p': seq<nat>, last: seq<int>, t: BlockClass)
    requires w < |last| && w < |nonBack| && Ordered(p) && Ordered(p') && SameReps(p, p') && k <= |pool|
    requires forall i | 0 <= i < |pool| :: pool[i] < |nonBack|
    requires Closed(w, pool, k, nonBack, p', last, t)
    ensures Closed(w, pool, k, nonBack, p, last, t)
  {
    forall i, y | 0 <= i < k && y in nonBack[pool[i]]
      ensures y < |p| && Absorbed(w, Find(p, y), pool, nonBack[w], last, t)
    {
      ClosedAt(w, pool, k, nonBack, p', last, t, i, y);
      assert Find(p', y) == Find(p, y);
    }
  }

  /** What was absorbed stays absorbed while the body and nonBackPreds[w] grow and `w` only turns irreducible. */
  lemma AbsorbedKept(w: nat, ys: set<nat>, pool: seq<nat>, pool': seq<nat>, nbw: set<nat>, nbw': set<nat>,
                     p: seq<nat>, p': seq<nat>, last: seq<int>, t: BlockClass, t': BlockClass)
    requires w < |last| && SameReps(p, p') && pool <= pool' && nbw <= nbw' && (t' == t || t' == Irreducible)
    requires forall y | y in ys :: y < |p| && Absorbed(w, Find(p, y), pool, nbw, last, t)
    ensures forall y | y in ys :: y < |p'| && Absorbed(w, Find(p', y), pool', nbw', last, t')
  {
    forall y | y in ys
      ensures y < |p'| && Absorbed(w, Find(p', y), pool', nbw', last, t')
    {
      var r := Find(p, y);
      if r in pool {
        assert r in pool';
      }
    }
  }

  /**
   * Between two moments of the worklist for `w`: nonBackPreds changed only
   * by growing at `w`, and the type changed only at `w`, to Irreducible.
   */
  ghost predicate Widened(w: nat, nb0: seq<set<nat>>, nb1: seq<set<nat>>, t0: seq<BlockClass>, t1: seq<BlockClass>)
  {
    && w < |nb0| && |nb1| == |nb0| && nb1 == nb0[w := nb1[w]] && nb0[w] <= nb1[w]
    && w < |t0| && |t1| == |t0| && t1 == t0[w := t1[w]] && (t1[w] == t0[w] || t1[w] == Irreducible)
  }

  lemma WidenedTrans(w: nat, nb0: seq<set<nat>>, nb1: seq<set<nat>>, nb2: seq<set<nat>>,
                     t0: seq<BlockClass>, t1: seq<BlockClass>, t2: seq<BlockClass>)
    requires Widened(w, nb0, nb1, t0, t1) && Widened(w, nb1, nb2, t1, t2)
    ensures Widened(w, nb0, nb2, t0, t2)
  {
  }

  /** Two appends to the body, each also queued, queue everything appended. */
  lemma QueuedBoth(pool0: seq<nat>, pool1: seq<nat>, pool2: seq<nat>, work0: seq<nat>, work1: seq<nat>, work2: seq<nat>)
    requires pool0 <= pool1 && pool1 <= pool2
    requires work1 == work0 + pool1[|pool0|..] && work2 == work1 + pool2[|pool1|..]
    ensures pool0 <= pool2 && work2 == work0 + pool2[|pool0|..]
  {
    assert pool2[|pool0|..] == pool1[|pool0|..] + pool2[|pool1|..];
  }

  /** The bound on non-back predecessors checked for the first `k + 1` members survives a worklist turn. */
  lemma BoundKept(w: nat, pool0: seq<nat>, pool: seq<nat>, k: nat, nb1: seq<set<nat>>, nb2: seq<set<nat>>, bound: nat)
    requires pool0 <= pool && k < |pool0| && w < |nb1| && |nb2| == |nb1| && nb2 == nb1[w := nb2[w]]
    requires forall i | 0 <= i < |pool| :: pool[i] < |nb1| && pool[i] != w
    requires forall i | 0 <= i <= k :: |nb1[pool0[i]]| <= bound
    ensures forall i | 0 <= i < k + 1 :: |nb2[pool[i]]| <= bound
  {
    forall i | 0 <= i < k + 1
      ensures |nb2[pool[i]]| <= bound
    {
      assert pool[i] == pool0[i] && nb2[pool[i]] == nb1[pool[i]];
    }
  }

  /** After a worklist turn the worklist is again the unvisited tail of the body. */
  lemma WorkAdvances(pool: seq<nat>, pool': seq<nat>, k: nat, work: seq<nat>)
    requires k < |pool| && pool <= pool' && work == pool[k + 1..] + pool'[|pool|..]
    ensures work == pool'[k + 1..]
  {
    assert pool' == pool + pool'[|pool|..];
  }

  /**
   * The numbers above `w` that step f makes loops for, in the order it
   * makes them (from the last number down): those with a back predecessor.
   */
  function LoopHeaders(back: seq<seq<nat>>, w: int): (r: seq<nat>)
    requires -1 <= w <= |back| - 1
    ensures forall i | 0 <= i < |r| :: w < r[i] < |back| && back[r[i]] != []
    ensures forall i, j | 0 <= i < j < |r| :: r[i] > r[j]
    ensures forall x | w < x < |back| && back[x] != [] :: x in r
    decreases |back| - w
  {
    if w == |back| - 1 then []
    else LoopHeaders(back, w + 1) + if back[w + 1] != [] then [w + 1] else []
  }

  /** The headers above `w` come first among those above any lower `v`. */
  lemma {:induction false} LoopHeadersPrefix(back: seq<seq<nat>>, v: int, w: int)
    requires -1 <= v <= w <= |back| - 1
    ensures LoopHeaders(back, w) <= LoopHeaders(back, v)
    decreases w - v
  {
    if v < w {
      LoopHeadersPrefix(back, v + 1, w);
    }
  }

  /** The blocks the nodes `ks` hold. */
  function BlocksOf(bb: seq<Option<nat>>, ks: seq<nat>): (r: seq<nat>)
    requires forall i | 0 <= i < |ks| :: ks[i] < |bb| && bb[ks[i]].Some?
    ensures |r| == |ks| && forall i | 0 <= i < |ks| :: bb[ks[i]] == Some(r[i])
  {
    seq(|ks|, i requires 0 <= i < |ks| => bb[ks[i]].value)
  }

  /** Block `b` heads a loop: DFS reached it and one of its predecessors is numbered inside its DFS interval. */
  ghost predicate IsLoopHeader(inEdges: seq<seq<nat>>, number: seq<int>, last: seq<int>, b: nat)
    requires NumberRange(number) && |last| == |number| && EdgesInRange(inEdges) && |inEdges| == |number| && b < |number|
  {
    number[b] != Unvisited && BackPredsOf(inEdges[b], number, last, number[b] as nat) != []
  }

  /** `blocks` lists the loop-header blocks, each once, from the highest DFS number down. */
  ghost predicate LoopHeaderBlocks(inEdges: seq<seq<nat>>, number: seq<int>, last: seq<int>, blocks: seq<nat>)
    requires |last| == |number| && EdgesInRange(inEdges) && |inEdges| == |number|
  {
    && NumberRange(number)
    && (forall b | 0 <= b < |number| :: b in blocks <==> IsLoopHeader(inEdges, number, last, b))
    && (forall i, j | 0 <= i < j < |blocks| :: blocks[i] < |number| && blocks[j] < |number| && number[blocks[i]] > number[blocks[j]])
  }

  /**
   * Read through the node-to-block table of a numbering, the numbers
   * LoopHeaders gives for the back predecessors step b computes are the
   * loop-header blocks in descending DFS order.
   */
  lemma HeaderBlocksExact(inEdges: seq<seq<nat>>, number: seq<int>, last: seq<int>, bb: seq<Option<nat>>,
                          back: seq<seq<nat>>, blocks: seq<nat>)
    requires NumberRange(number) && |last| == |number| && EdgesInRange(inEdges) && |inEdges| == |number|
    requires |bb| == |number| && |back| == |number|
    requires forall b | 0 <= b < |number| && number[b] != Unvisited :: bb[number[b]] == Some(b)
    requires forall k | 0 <= k < |number| && bb[k].Some? :: bb[k].value < |number| && number[bb[k].value] == k
    requires forall k | 0 <= k < |number| ::
      back[k] == if bb[k].Some? then BackPredsOf(inEdges[bb[k].value], number, last, k) else []
    requires var heads := LoopHeaders(back, -1);
      |blocks| == |heads| && forall i | 0 <= i < |heads| :: bb[heads[i]] == Some(blocks[i])
    ensures LoopHeaderBlocks(inEdges, number, last, blocks)
  {
    var heads := LoopHeaders(back, -1);
    forall b | 0 <= b < |number|
      ensures b in blocks <==> IsLoopHeader(inEdges, number, last, b)
    {
      HeaderBlockIff(inEdges, number, last, bb, back, blocks, b);
    }
    forall i, j | 0 <= i < j < |blocks|
      ensures blocks[i] < |number| && blocks[j] < |number| && number[blocks[i]] > number[blocks[j]]
    {
      assert bb[heads[i]] == Some(blocks[i]) && bb[heads[j]] == Some(blocks[j]);
    }
  }

  /** HeaderBlocksExact for one block `b`: it is listed exactly when it heads a loop. */
  lemma HeaderBlockIff(inEdges: seq<seq<nat>>, number: seq<int>, last: seq<int>, bb: seq<Option<nat>>,
                       back: seq<seq<nat>>, blocks: seq<nat>, b: nat)
    requires NumberRange(number) && |last| == |number| && EdgesInRange(inEdges) && |inEdges| == |number|
    requires |bb| == |number| && |back| == |number| && b < |number|
    requires forall b | 0 <= b < |number| && number[b] != Unvisited :: bb[number[b]] == Some(b)
    requires forall k | 0 <= k < |number| && bb[k].Some? :: bb[k].value < |number| && number[bb[k].value] == k
    requires forall k | 0 <= k < |number| ::
      back[k] == if bb[k].Some? then BackPredsOf(inEdges[bb[k].value], number, last, k) else []
    requires var heads := LoopHeaders(back, -1);
      |blocks| == |heads| && forall i | 0 <= i < |heads| :: bb[heads[i]] == Some(blocks[i])
    ensures b in blocks <==> IsLoopHeader(inEdges, number, last, b)
  {
    var heads := LoopHeaders(back, -1);
    if b in blocks {
      var i :| 0 <= i < |blocks| && blocks[i] == b;
      assert bb[heads[i]] == Some(b);
    }
    if IsLoopHeader(inEdges, number, last, b) {
      var k := number[b] as nat;
      assert bb[k] == Some(b) && back[k] != [];
      var i :| 0 <= i < |heads| && heads[i] == k;
      assert blocks[i] == b;
    }
  }
}
