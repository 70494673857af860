# Havlak loop recognition, modelled in Dafny

This project models the core of the Havlak loop-recognition benchmark.
The benchmark finds the loops of a control-flow graph (CFG) with Havlak's
algorithm ("Nesting of Reducible and Irreducible Loops"), which is built on
Tarjan's union-find. It records them in a loop structure graph (LSG) and then
gives every loop a depth and a nesting level.

The Go port (`src/havlak/go`) is the reference. The go_pro, C++, JavaScript
and Java ports are modelled as variants wherever they behave differently.

- `cfg.dfy` (module `Cfg`): the CFG builder. Blocks are an arena indexed
  0..n-1, with a name map, ordered in- and out-edge lists and a start block.
  It covers both edge constructors: Go creates the destination first, while
  C++ and JavaScript create the source first and record the edge.
- `union_find.dfy` (module `UnionFind`): the union-find nodes, as a class
  whose `parent`, `bb` and `loop` sequences are rewritten in place.
  `FindSet` (with path compression) and `Union` are proved against the
  reference function `Find`.
- `depth_first.dfy` (module `DepthFirst`): the ancestor test, and what a DFS
  call does to the numbering. The reference recursive search `Search`
  defines the numbering; the blocks it numbers from the start block are
  exactly those reachable from it. Numbers are given in preorder, `last`
  holds nested intervals, and every successor of a numbered block is
  numbered.
- `havlak.dfy` (module `Havlak`): value-level definitions of steps b to e:
  - the back/non-back split of the predecessors;
  - the initial loop body;
  - what it means for the worklist to have closed a body, and the tally of
    what reached the header from outside its DFS interval;
  - which numbers, and so which blocks, head loops, in step c's order.
- `loop_creation.dfy` (module `LoopCreation`): what step f (loop creation)
  does to the loop arena. It proves that the arena stays a forest the
  nesting pass can walk.
- `lsg.dfy` (module `Lsg`): the `SimpleLoop` record and the `Lsg` class:
  setters, the loop counters, and both nesting passes. The Go pass updates
  the child; the C++ and JavaScript pass updates the parent. Each pass is
  proved against an exact relational definition (`ChildLevels`,
  `ParentLevels`).
- `finder.dfy` (module `Finder`): the `HavlakLoopFinder` class.
  - `FindLoops` runs steps a to f over the finder's slices, with one `Port`
    parameter selecting the behaviour of each port.
  - `FindHavlakLoops` is the entry point.
- `object_set.dfy` (module `ObjectSets`): the Java `ObjectSet`, a
  duplicate-free set stored in a doubling array.
- `findings.dfy` (module `Findings`): the four places where a port
  contradicts its own design (see "## Findings").

How the model maps the source:
- Pointers become indices. A block is its creation index, a union-find node
  is its DFS number, and a loop is its index in `Lsg.store`.
- Go's process-wide `loopCounter` is an explicit `LoopCounter` object that
  is passed in.
- Iterating over a map or a set (Go maps, C++ `std::set`, JavaScript
  arrays) is modelled as an arbitrary choice (`:|`). Every proved property
  therefore holds for any iteration order.

## Model

| member | source | states |
|---|---|---|
| Cfg.Cfg.constructor | trunk/src/havlak/go/basicblock.go:88-90 | a new CFG has no blocks, no name entries, no start block and no recorded edges |
| Cfg.Cfg.NumNodes | trunk/src/havlak/go/basicblock.go:96-98 | the node count (size of the name map) equals the number of blocks created; likewise at `src/havlak/go_pro/basicblock.go:79-81` |
| Cfg.Cfg.CreateNode | trunk/src/havlak/go/basicblock.go:100-112 | a known name returns its block and changes nothing; a new name adds exactly one block without edges, registered under that name, which becomes the start block exactly when it is the first block; likewise at `src/havlak/go_pro/basicblock.go:83-95` |
| Cfg.Cfg.CreateNodeResettingStart | src/havlak/cpp/mao-loops.h:90-106 | the C++ CreateNode re-assigns the start block whenever exactly one block exists, including on the known-name path, and still has CreateNode's contract: the re-assignment changes nothing; likewise at `trunk/src/havlak/javascript/LoopTesterApp.js:92-106` |
| Cfg.Cfg.Link | trunk/src/havlak/go/basicblock.go:73-79 | AddOutEdge/AddInEdge: `to` is appended at the end of from's out-edges and `from` at the end of to's in-edges; no other list, block or start changes; likewise at `src/havlak/go_pro/basicblock.go:60-66` (appends on the OutEdges/InEdges slices) |
| Cfg.Cfg.NewBasicBlockEdge | trunk/src/havlak/go/basicblock.go:147-156 | the edge's endpoints are blocks with the given names; at most two blocks are added, each with one of those names; each edge list gains exactly this edge; on an empty CFG the destination is block 0 and becomes the start block; likewise at `src/havlak/go_pro/basicblock.go:110-119` |
| Cfg.Cfg.NewBasicBlockEdgeSourceFirst | src/havlak/cpp/mao-loops.h:310-320 | the C++ BasicBlockEdge constructor: the same edge-list contract, the edge is appended to the CFG's edge list, and on an empty CFG the source becomes the start block; likewise at `trunk/src/havlak/javascript/LoopTesterApp.js:136-144` |
| UnionFind.Find | src/havlak/go/havlakloopfinder.go:68-85 | the representative of a node is self-parented and has a DFS number no larger than the node's |
| UnionFind.CompressPreservesFind | src/havlak/go/havlakloopfinder.go:79-82 | pointing one node straight at its representative changes no node's representative and keeps parents at smaller or equal numbers |
| UnionFind.CompressOne | trunk/src/havlak/cpp/mao-loops.cc:62-65 | the same per node, for the C++ compression loop |
| UnionFind.UnionRedirects | src/havlak/go/havlakloopfinder.go:89-91 | union of representative `u` into a smaller representative `b`: exactly the nodes whose representative was `u` now have `b`, all others keep theirs |
| UnionFind.PathShape | src/havlak/go/havlakloopfinder.go:72-77 | every node FindSet walks through is not self-parented and has the same representative as the start |
| UnionFind.UnionFindNodes.constructor | src/havlak/go/havlakloopfinder.go:193-197 | `size` fresh nodes: each its own parent, without block or loop |
| UnionFind.UnionFindNodes.Init | src/havlak/go/havlakloopfinder.go:55-60 | Init makes node `i` a singleton for its block, with no loop, and touches no other node |
| UnionFind.UnionFindNodes.SetLoop | src/havlak/go/havlakloopfinder.go:111-113 | only node `i`'s loop changes |
| UnionFind.UnionFindNodes.FindSet | src/havlak/go/havlakloopfinder.go:68-85 | returns the representative of `u` (self-parented); exactly the walked nodes are repointed at it, every other parent is unchanged, and no node's representative changes; likewise at `src/havlak/go_pro/havlakloopfinder.go:67-84`; likewise at `trunk/src/havlak/cpp/mao-loops.cc:50-68`; likewise at `trunk/src/havlak/javascript/LoopTesterApp.js:317-334` |
| UnionFind.UnionFindNodes.Walk | src/havlak/go/havlakloopfinder.go:72-77 | the first loop reaches the representative and collects exactly the walked nodes whose parent is not already the representative |
| UnionFind.UnionFindNodes.Compress | src/havlak/go/havlakloopfinder.go:80-82 | the second loop repoints exactly the collected nodes and keeps every representative |
| UnionFind.UnionFindNodes.Union | src/havlak/go/havlakloopfinder.go:89-91 | Union only sets this node's parent to B; likewise at `trunk/src/havlak/cpp/mao-loops.cc:74-76`; likewise at `trunk/src/havlak/javascript/LoopTesterApp.js:341-343` |
| DepthFirst.AncestorReflexive | src/havlak/go/havlakloopfinder.go:135-137 | under DFS intervals (`k <= last[k]`) the interval test makes every numbered block its own ancestor |
| DepthFirst.AncestorTransitive | src/havlak/go/havlakloopfinder.go:135-137 | with nested (laminar) DFS intervals the interval test `w <= v <= last[w]` is transitive; likewise at `trunk/src/havlak/cpp/mao-loops.cc:157-159`; likewise at `trunk/src/havlak/javascript/LoopTesterApp.js:385-387` |
| DepthFirst.AllUnvisited | src/havlak/go/havlakloopfinder.go:204-207 | after step a's marking, all n blocks are unvisited |
| DepthFirst.Search | src/havlak/go/havlakloopfinder.go:158-170 | the reference recursive DFS as a function: it numbers its unvisited block with `current`, returns a last number no smaller, and leaves exactly `lastid + 1` numbers given |
| DepthFirst.SearchEdges | src/havlak/go/havlakloopfinder.go:162-166 | the reference loop over the out-edges from the `i`-th on: the last number given only grows and the count of numbered blocks stays exact |
| DepthFirst.SearchAll | src/havlak/go/havlakloopfinder.go:204-209 | the reference search of a whole graph from the start block, every block unvisited before; the numbers given are `0..lastid` |
| DepthFirst.NumberOne | src/havlak/go/havlakloopfinder.go:159 | numbering one unvisited block with the next number leaves one fewer unvisited block and the next number one higher |
| DepthFirst.SearchReaches | src/havlak/go/havlakloopfinder.go:158-170 | every block the reference search numbers is reachable from the block it starts at |
| DepthFirst.SearchEdgesReach | src/havlak/go/havlakloopfinder.go:162-166 | every block the search from an out-edge on numbers is reachable from that block |
| DepthFirst.SearchCloses | src/havlak/go/havlakloopfinder.go:158-170 | the search keeps numbered blocks numbered, numbers its block, and numbers every successor of each block it numbers |
| DepthFirst.SearchEdgesClose | src/havlak/go/havlakloopfinder.go:162-166 | the search over the out-edges numbers every remaining successor and is closed in the same sense |
| DepthFirst.ReachedNumbered | src/havlak/go/havlakloopfinder.go:162-166 | if the start is numbered and successors of numbered blocks are numbered, every block reachable from the start is numbered |
| DepthFirst.NumberedIffReachable | src/havlak/go/havlakloopfinder.go:204-209 | both directions: the whole-graph search from the start block numbers a block exactly when it is reachable from the start block; the others stay unvisited and become Dead in step b |
| DepthFirst.NumbersStart | src/havlak/go/havlakloopfinder.go:204-209 | with every block unvisited and no node holding a block, the numbering invariant holds with 0 as the next number |
| DepthFirst.NumbersInit | src/havlak/go/havlakloopfinder.go:159-160 | numbering an unvisited block with the next number keeps numbers and nodes in one-to-one correspondence |
| DepthFirst.VisitJoin | src/havlak/go/havlakloopfinder.go:163-167 | two DFS calls in a row, numbering `lo..mid` then `mid+1..hi`, together number `lo..hi` with bounded, nested intervals |
| DepthFirst.VisitTop | src/havlak/go/havlakloopfinder.go:158-170 | numbering a block `lo`, visiting its successors with `lo+1..hi` and setting `last[lo] = hi` is a DFS call numbering `lo..hi` |
| DepthFirst.VisitingStep | src/havlak/go/havlakloopfinder.go:164-166 | a recursive call on an unvisited successor continues the numbering from `lastid + 1` and leaves that successor numbered |
| DepthFirst.VisitingSkip | src/havlak/go/havlakloopfinder.go:164 | an already numbered successor needs nothing |
| DepthFirst.VisitDone | src/havlak/go/havlakloopfinder.go:168-169 | after the out-edges, `last[current]` is the largest number given and all successors are numbered |
| Finder.HavlakLoopFinder.constructor | trunk/src/havlak/cpp/mao-loops.cc:111-113 | the finder holds the given CFG and LSG, with fresh union-find nodes |
| Finder.HavlakLoopFinder.DFS | src/havlak/go/havlakloopfinder.go:158-170 | numbers `block` with `current`, then each successor still unvisited at its turn, in out-edge order, from the number after the last one given; the block numbers, the subtree ends and the returned last number are exactly those of the reference recursive search `Search`; each numbered node becomes a singleton holding its block (Visited); likewise at `trunk/src/havlak/cpp/mao-loops.cc:171-189`; likewise at `src/havlak/go_pro/havlakloopfinder.go:133-145`; the JavaScript DFS differs (see Findings) |
| Finder.HavlakLoopFinder.VisitAll | src/havlak/go/havlakloopfinder.go:161-166 | DFS's loop over the out-edges: every successor unvisited at its turn is searched, as the reference `SearchEdges` from the first out-edge |
| Finder.HavlakLoopFinder.VisitSuccessor | src/havlak/go/havlakloopfinder.go:163-165 | one out-edge: an unvisited target is searched from `lastid + 1` by a recursive call, a visited one is skipped; either way the result is one step of the reference `SearchEdges` |
| Finder.HavlakLoopFinder.Reset | src/havlak/go/havlakloopfinder.go:184-207 | slices of the CFG's size, every block unvisited, every node a singleton without loop, empty back and non-back predecessor lists; Go fills nonBackPreds by block name, which matches this only because FindLoops requires the Go ports' names to be 0..n-1; likewise at `src/havlak/go_pro/havlakloopfinder.go:176-182` |
| Finder.HavlakLoopFinder.NumberBlocks | src/havlak/go/havlakloopfinder.go:184-209 | step a: numbers and subtree ends are those of the reference whole-graph search `SearchAll` from the start block, which numbers exactly the blocks reachable from it (NumberedIffReachable); the start block gets 0; the first `reached` numbers go to blocks one to one, with bounded nested intervals; every successor of a numbered block is numbered |
| Finder.HavlakLoopFinder.ClassifyPredecessors | src/havlak/go/havlakloopfinder.go:231-245 | step b for block `w`: backPreds[w] becomes the in-edge-ordered numbers of its numbered predecessors that `w` is an ancestor of, nonBackPreds[w] the set of the others |
| Finder.HavlakLoopFinder.ClassifyAll | src/havlak/go/havlakloopfinder.go:221-246 | step b: every number gets header 0, and is Dead with no predecessors when no block holds it, NonHeader with its predecessors split otherwise; likewise at `trunk/src/havlak/cpp/mao-loops.cc:235-259` |
| Finder.HavlakLoopFinder.Prepare | src/havlak/go/havlakloopfinder.go:184-249 | steps a and b together: the numbering is `SearchAll`'s; every number gets header 0 and is classified (Dead when no block holds it, its numbered predecessors split into back and non-back otherwise); node 0 holds the start block; no number is Self and no node is joined yet |
| Finder.HavlakLoopFinder.Survey | src/havlak/go/havlakloopfinder.go:184-249 | steps a and b as step c needs them, and the list of loop-header blocks: exactly the blocks the reference search reaches that have a predecessor in their DFS interval, each once, from the highest DFS number down |
| Havlak.NumberedPreds | src/havlak/go/havlakloopfinder.go:232-237 | the numbers of the numbered predecessors, unnumbered ones dropped; no longer than the in-edge list |
| Havlak.BackPredsOf | src/havlak/go/havlakloopfinder.go:239-240 | every back predecessor is a number that `w` is an ancestor of |
| Havlak.NonBackPredsOf | src/havlak/go/havlakloopfinder.go:241-242 | every non-back predecessor is a number that `w` is not an ancestor of |
| Havlak.BackPredsSplit | src/havlak/go/havlakloopfinder.go:231-245 | both directions: `v` is a back predecessor iff it numbers a predecessor and `w` is its ancestor; a non-back predecessor iff it numbers a predecessor and `w` is not its ancestor; likewise at `trunk/src/havlak/cpp/mao-loops.cc:245-258` (split for the C++ step b) |
| Havlak.FindAbove | src/havlak/go/havlakloopfinder.go:263 | processing headers in descending order: while `w` is next, nodes up to `w` are their own representatives and nodes above `w` have representatives above `w` |
| Havlak.JoinKeepsAbove | src/havlak/go/havlakloopfinder.go:359-363 | joining body nodes (all above `w`) to `w` leaves only nodes above `w - 1` joined, which is what the next header needs |
| Havlak.CompressKeepsAbove | src/havlak/go/havlakloopfinder.go:79-82 | path compression during the loop over headers keeps that invariant and every self-parented node |
| Havlak.Reps | src/havlak/go/havlakloopfinder.go:273-280 | the initial body holds at most one entry per back predecessor, and every entry is a representative (self-parented node) |
| Havlak.RepsInside | src/havlak/go/havlakloopfinder.go:273-280 | the initial body lies strictly inside `w`'s DFS interval: every member is a descendant of `w` and is never `w` |
| Havlak.ClosedStep | src/havlak/go/havlakloopfinder.go:297-334 | one worklist turn closes the member just taken and keeps every earlier member closed while the body and nonBackPreds[w] only grow and `w` only turns irreducible |
| Havlak.UnpooledShrinks | src/havlak/go/havlakloopfinder.go:327-330 | a node appended after the listContainsNode check is new, so the set of nodes outside the body shrinks and the worklist terminates |
| Havlak.AbsorbedKept | src/havlak/go/havlakloopfinder.go:318-333 | a non-back predecessor already handled stays handled as the body grows |
| Havlak.WidenedTrans | src/havlak/go/havlakloopfinder.go:322-324 | across several turns, nonBackPreds and types change only at `w`, by growing and by turning irreducible |
| Havlak.WorkAdvances | src/havlak/go_pro/havlakloopfinder.go:265-297 | FIFO worklist: after a turn the worklist is the body after the member just taken, new members at its end |
| Havlak.ChaseStep | src/havlak/go/havlakloopfinder.go:319-332 | chasing one more non-back predecessor keeps the bookkeeping: `w` holds the representatives outside its interval of those chased, and the body holds the ones inside it |
| Havlak.SidesAbsorbed | src/havlak/go/havlakloopfinder.go:318-333 | once the inside representatives are `w` or in the body and the outside ones are in nonBackPreds[w] (making `w` Irreducible if any), every chased predecessor is absorbed |
| Havlak.SideRepsOfStep | src/havlak/go/havlakloopfinder.go:297-299 | the representatives met from the first `k + 1` members are those met from the first `k` plus those of member `k` |
| Havlak.SideRepsOfHas | src/havlak/go/havlakloopfinder.go:318-320 | a representative met from any one member is met from the body |
| Havlak.FedStep | src/havlak/go/havlakloopfinder.go:326-330 | members appended while absorbing member `k` were reached from it, so every added member stays reached from an earlier one |
| Havlak.FedNone | src/havlak/go/havlakloopfinder.go:291-297 | a body none of whose members is initial, every member being reached from an earlier one, is empty |
| Havlak.TallyStep | src/havlak/go/havlakloopfinder.go:322-324 | absorbing member `k` extends the tally: nonBackPreds[w] gains exactly the outside representatives met from it, and `w` turns Irreducible exactly when there is one |
| Havlak.RepsNone | src/havlak/go/havlakloopfinder.go:273-279 | an empty initial body means every back predecessor is `w` itself |
| Havlak.LoopTest | src/havlak/go/havlakloopfinder.go:339 | after a closed body, the test `nodePool.Len() > 0 \|\| types[w] == bbSelf` holds exactly when `w` has a back predecessor or was Self before step d |
| Havlak.NodeSetSize | src/havlak/go/havlakloopfinder.go:313-314 | a set of nodes below `n` has at most `n` members, so the abort needs more than 32*1024 blocks |
| Havlak.BoundKept | src/havlak/go/havlakloopfinder.go:313-316 | the bound checked on the members taken so far survives a worklist turn |
| Havlak.LoopHeaders | src/havlak/go/havlakloopfinder.go:263-374 | the numbers step c makes loops for, from the highest down: each has a back predecessor, they strictly decrease, and every number with a back predecessor is listed |
| Havlak.LoopHeadersPrefix | src/havlak/go/havlakloopfinder.go:263 | the headers above `w` come first among those above any lower number |
| Havlak.HeaderBlocksExact | src/havlak/go/havlakloopfinder.go:221-246 | read through the node-to-block table, the numbers with back predecessors are exactly the loop-header blocks, in descending DFS order |
| Havlak.HeaderBlockIff | src/havlak/go/havlakloopfinder.go:231-243 | both directions for one block: it is listed exactly when DFS reached it and one of its predecessors is numbered inside its interval |
| Finder.ListContainsNode | src/havlak/go/havlakloopfinder.go:147-154 | true iff `u` is an element of the list; likewise at `src/havlak/go_pro/havlakloopfinder.go:122-129` |
| Finder.HavlakLoopFinder.Representative | src/havlak/go/havlakloopfinder.go:320 | FindSet inside the loop over headers: returns the representative and keeps every representative and the loop-over-headers invariant |
| Finder.HavlakLoopFinder.InitialPool | src/havlak/go/havlakloopfinder.go:273-280 | step d: the body is the representatives of the back predecessors other than `w`, in order; `w` becomes Self iff it is its own back predecessor; likewise at `trunk/src/havlak/cpp/mao-loops.cc:282-290` |
| Finder.HavlakLoopFinder.Representatives | src/havlak/go/havlakloopfinder.go:273-280 | the loop of step d computes Reps and whether `w` is among the back predecessors |
| Finder.HavlakLoopFinder.ChaseOne | src/havlak/go/havlakloopfinder.go:319-332 | one non-back predecessor `y` with representative `r`: if `r` is outside `w`'s interval, `w` becomes Irreducible and `r` joins nonBackPreds[w] while the body stays; otherwise only the body changes, gaining `r` at its end unless `r` is `w` or already in it; the worklist gains what the body gains; likewise at `trunk/src/havlak/javascript/LoopTesterApp.js:559-572` |
| Finder.HavlakLoopFinder.ChaseNonBackPreds | src/havlak/go/havlakloopfinder.go:318-333 | in any iteration order: nonBackPreds[w] gains exactly the representatives of `x`'s non-back predecessors outside `w`'s interval, `w` turns Irreducible exactly when there is one, the body gains only representatives inside the interval, and every one of them ends up absorbed; likewise at `trunk/src/havlak/cpp/mao-loops.cc:327-348` |
| Finder.HavlakLoopFinder.ChaseNext | src/havlak/go/havlakloopfinder.go:318-332 | one turn of the loop over `x`'s non-back predecessors: the bookkeeping (outside representatives in nonBackPreds[w], inside ones in the body) extends from the predecessors chased so far to one more |
| Finder.HavlakLoopFinder.Absorb | src/havlak/go/havlakloopfinder.go:297-333 | one worklist turn: the member taken off the front becomes closed, the worklist is again the rest of the body, the body either stays or has fewer nodes outside it, and the tally of what reached `w` from outside extends to this member |
| Finder.HavlakLoopFinder.GrowPool | src/havlak/go/havlakloopfinder.go:297-334 | aborts exactly when it meets a member with more than 32*1024 non-back predecessors, all members before it being below that bound; the members it checked are closed; every added member is new, inside `w`'s interval, and the representative of a non-back predecessor of an earlier member; nonBackPreds[w] gains exactly the representatives outside the interval met from the checked members, and `w` turns Irreducible exactly when there are any; likewise at `src/havlak/go_pro/havlakloopfinder.go:265-302` |
| Finder.HavlakLoopFinder.BuildPool | src/havlak/go/havlakloopfinder.go:273-334 | steps d and e: the body starts with the initial body and is empty exactly when that is; `w` starts Reducible when that is not empty (overriding Self), Self for a self back-edge; it aborts exactly when a member has too many non-back predecessors; otherwise the body is closed, and a loop is due exactly when `w` has a back predecessor or was Self before |
| Finder.Opened | src/havlak/go/havlakloopfinder.go:340-343 | the new loop has no parent or children; all ports but C++ set the header, which makes the header its only member; Go and go_pro mark it reducible exactly when the header is not Irreducible, JavaScript exactly when it is (see Findings); the C++ loop has no such field and gets the model default `true`; likewise at `trunk/src/havlak/javascript/LoopTesterApp.js:580-587` |
| Finder.HavlakLoopFinder.OpenLoop | src/havlak/go/havlakloopfinder.go:340-343 | the loop is appended with the next number of the port's counter: the process-wide one in Go, the graph's own in C++ and JavaScript; the other counter is unchanged; likewise at `src/havlak/go_pro/havlakloopfinder.go:308-313`; likewise at `trunk/src/havlak/cpp/mao-loops.cc:355` |
| Finder.HavlakLoopFinder.CreateLoop | src/havlak/go/havlakloopfinder.go:339-374 | step f: loop `l` is made, owned by `w`, collapsed over the body and listed; every body node gets header `w` and is joined to `w`; likewise at `trunk/src/havlak/cpp/mao-loops.cc:354-387` |
| Finder.HavlakLoopFinder.Collapse | src/havlak/go/havlakloopfinder.go:359-371 | each body node gets header `w` and parent `w`; a node's loop becomes a child of `l`, otherwise its block becomes a member |
| Finder.HavlakLoopFinder.CollapseNode | src/havlak/go/havlakloopfinder.go:360-370 | one body node: header and parent become `w`, and its loop is linked to `l` or its block added; at `src/havlak/go_pro/havlakloopfinder.go:329-340`: on go_pro a nested loop only gets its Parent field set; likewise at `trunk/src/havlak/javascript/LoopTesterApp.js:603-616` |
| Finder.HavlakLoopFinder.MakeLoop | src/havlak/go/havlakloopfinder.go:339-374 | step f keeps the loop-over-headers invariant: the LSG is still a forest owned by the union-find roots, it has grown by exactly this loop, and only nodes above `w - 1` are joined |
| Finder.HavlakLoopFinder.FinishHeader | src/havlak/go/havlakloopfinder.go:339-374 | unless the run aborted, a loop is made exactly when the body is not empty or `w` is Self; otherwise nothing changes |
| Finder.HavlakLoopFinder.ProcessLive | src/havlak/go/havlakloopfinder.go:272-374 | steps d to f for a live header: the body is Worked out of the back predecessors, and a loop is made exactly when it did not abort and `w` has a back predecessor or was Self |
| Finder.HavlakLoopFinder.HeaderTurn | src/havlak/go/havlakloopfinder.go:263-375 | one header as the loop over headers sees it: the loops made so far are those of the headers down to `w`, or above `w` when it aborts, and an abort needs a node with too many non-back predecessors |
| Finder.HavlakLoopFinder.ProcessHeader | src/havlak/go/havlakloopfinder.go:263-375 | one header `w`: a dead one changes nothing; a live one aborts exactly when a body member has more than 32*1024 non-back predecessors; without abort its body is closed, the header's class is tallied from what reached it from outside, and a loop is made exactly when `w` has a back predecessor or was Self (`:339`), headed by `w`'s block (except C++), collapsed over the body and listed; the forest, its root, ownership and counters are kept; only nodes above `w - 1` are joined |
| Finder.HavlakLoopFinder.ProcessHeaders | src/havlak/go/havlakloopfinder.go:263-376 | the loop over headers in descending DFS order: it stops exactly on an abort (`:313-316`), which needs a node with more than 32*1024 non-back predecessors; the loops made are one per loop header above the stopping point, in order, each headed by its header's block except in C++; forest, root, ownership and growth hold |
| Finder.HavlakLoopFinder.ProcessAll | src/havlak/go/havlakloopfinder.go:251-376 | step c as FindLoops sees it: the new loops are one per loop-header block from the highest DFS number down, for all of them unless the run aborts, which needs more than 32*1024 blocks |
| Finder.HavlakLoopFinder.FindLoops | src/havlak/go/havlakloopfinder.go:179-378 | no start block: nothing changes; otherwise `headers` are exactly the loop-header blocks (reached by the reference search and with a predecessor in their DFS interval), from the highest DFS number down, and the new loops, appended and listed with consecutive counter values, are one per header in that order, headed by it except in C++; all of them unless the run aborts, which needs more than 32*1024 blocks; the LSG stays a forest with the same root and older loops untouched; likewise at `src/havlak/go_pro/havlakloopfinder.go:154-347`; likewise at `trunk/src/havlak/cpp/mao-loops.cc:199-390` |
| Finder.FindHavlakLoops | src/havlak/go/havlakloopfinder.go:381-384 | returns the number of listed loops after FindLoops, which grew by one per loop-header block of the reference search unless the run aborted (for JavaScript, of the intended search: see Findings); likewise at `trunk/src/havlak/cpp/mao-loops.cc:404-408`; at `trunk/src/havlak/javascript/LoopTesterApp.js:428-621`: the JavaScript findLoops returns the count itself: 0 when the run aborts, the number of listed loops otherwise |
| Finder.GrownStep | src/havlak/go/lsg.go:185-195 | each loop made takes the next counter value, so counters of the new loops are consecutive, increasing and unique |
| Finder.LoopMade | src/havlak/go/havlakloopfinder.go:339-374 | one loop creation keeps forest, ownership and growth |
| Finder.OwnedSameReps | src/havlak/go/havlakloopfinder.go:320 | compression keeps which node owns which loop |
| Finder.HeadedStep | src/havlak/go/havlakloopfinder.go:339-373 | step f for header `w` adds `w` to the headed loops exactly when it makes a loop, and keeps the headers of the others |
| Finder.HeadedNext | src/havlak/go/havlakloopfinder.go:263 | after header `w`, the loops made are those of the headers down to `w`, or above it on abort |
| Finder.HeadedBlocks | src/havlak/go/havlakloopfinder.go:342 | read through the node-to-block table, the loops made are those of the first loop-header blocks, in order, all of them when nothing aborted |
| LoopCreation.CollapseAllShape | src/havlak/go/havlakloopfinder.go:359-371 | the new loop gains exactly the blocks of body nodes without a loop and, when linking, exactly the nested loops as children; each nested loop gets the new loop as parent; every other loop is unchanged |
| LoopCreation.NestedLoopsOwner | src/havlak/go/havlakloopfinder.go:366-367 | a loop becomes nested exactly when some body node owns it |
| LoopCreation.MemberBlocksHolder | src/havlak/go/havlakloopfinder.go:368-369 | a block becomes a member exactly when some body node without a loop holds it |
| LoopCreation.AdoptKeepsForest | src/havlak/go/havlakloopfinder.go:366-367 | adopting parentless loops under the newest loop keeps the arena a forest, each child named by one parent, and parents listing children when linking both ways |
| LoopCreation.RootStaysListed | src/havlak/go/havlakloopfinder.go:373 | listing the new loop never makes the root an orphan |
| LoopCreation.OwnedAfterCollapse | src/havlak/go/havlakloopfinder.go:357-363 | after the collapse `w` owns the new loop, and every loop whose node is still a representative has no parent |
| LoopCreation.CreateKeepsForest | src/havlak/go/havlakloopfinder.go:339-374 | creating and collapsing a loop keeps the LSG a forest below the root, keeps the root off the orphan list, and keeps ownership |
| LoopCreation.CollapseKeepsOlder | src/havlak/go/havlakloopfinder.go:339-374 | the collapse leaves loops made before the run unchanged, keeps every counter, and keeps each header a member |
| LoopCreation.CollapseAllLocal | src/havlak/go/havlakloopfinder.go:357-366 | setting `w`'s loop before the collapse does not change it: only body nodes' loops are read |
| LoopCreation.CollapseKeepsHeaders | src/havlak/go/havlakloopfinder.go:359-371 | the collapse changes no loop's header |
| Lsg.Max | src/havlak/go/lsg.go:149-154 | the result is at least both arguments and equals one of them; likewise at `trunk/src/havlak/javascript/LoopTesterApp.js:255-259` |
| Lsg.LoopCounter.constructor | src/havlak/go/lsg.go:170 | the process-wide counter starts at 0 |
| Lsg.Lsg.constructor | src/havlak/go/lsg.go:177-183 | NewLSG: the root takes the next process-wide number and level 0, is not marked root and is not listed, so the loop count starts at 0; likewise at `trunk/src/havlak/go_pro/lsg.go:132-138` |
| Lsg.Lsg.PerGraph | src/havlak/cpp/mao-loops.h:235-240 | the C++ graph: the root gets counter 0 and level 0, which marks it root, and is listed, so the count includes it; the per-graph counter moves to 1; likewise at `trunk/src/havlak/javascript/LoopTesterApp.js:222-230` |
| Lsg.Lsg.NewLoop | src/havlak/go/lsg.go:185-195 | a new empty loop numbered with the process-wide counter, which moves on by one; likewise at `trunk/src/havlak/go_pro/lsg.go:140-150` |
| Lsg.Lsg.CreateNewLoop | src/havlak/cpp/mao-loops.h:246-250 | a new empty, non-root loop at level 0 numbered with the graph's counter, which moves on by one; the C++ loop has no reducibility field, and the model's flag is the default `true`; likewise at `trunk/src/havlak/javascript/LoopTesterApp.js:232-237`; at `src/havlak/java_pro/lsg/SimpleLoop.java:89-97`: the loop it makes is the Java SimpleLoop default: no parent, not root, reducible, levels 0 |
| Lsg.Lsg.AddLoop | src/havlak/go/lsg.go:197-199 | appends to the list, so the loop count grows by one; likewise at `trunk/src/havlak/go_pro/lsg.go:152-154` |
| Lsg.Lsg.AddNode | src/havlak/go/lsg.go:51-53 | set insertion of a member block; adding a member again changes nothing; likewise at `src/havlak/java_pro/lsg/SimpleLoop.java:99-101` (over the ObjectSet) |
| Lsg.Lsg.AddChildLoop | src/havlak/go/lsg.go:55-57 | set insertion of a child; adding a child again changes nothing; likewise at `src/havlak/cpp/mao-loops.h:168-170` |
| Lsg.Lsg.SetParent | src/havlak/go/lsg.go:115-118 | the loop names the parent and the parent lists the loop among its children; likewise at `trunk/src/havlak/go_pro/lsg.go:90-93`; likewise at `src/havlak/cpp/mao-loops.h:189-192`; likewise at `src/havlak/java_pro/lsg/SimpleLoop.java:149-152` |
| Lsg.Lsg.SetParentField | src/havlak/go_pro/havlakloopfinder.go:335-336 | only the Parent field changes; the parent's children set does not |
| Lsg.Lsg.SetHeader | src/havlak/go/lsg.go:120-123 | the header is recorded and becomes a member block; likewise at `trunk/src/havlak/go_pro/lsg.go:95-98`; likewise at `src/havlak/java_pro/lsg/SimpleLoop.java:153-156` |
| Lsg.Lsg.SetIsReducible | src/havlak/go/lsg.go:137-139 | only the reducibility flag changes; likewise at `src/havlak/java_pro/lsg/SimpleLoop.java:172-174` |
| Lsg.Lsg.SetNestingLevel | src/havlak/go/lsg.go:129-131 | only the nesting level changes; the root mark is untouched |
| Lsg.Lsg.SetNestingLevelMarkingRoot | src/havlak/cpp/mao-loops.h:196-200 | sets the level and marks the loop root exactly when the level is 0; other levels keep the mark as it was; likewise at `trunk/src/havlak/javascript/LoopTesterApp.js:199-204`; likewise at `src/havlak/java_pro/lsg/SimpleLoop.java:163-168` |
| Lsg.Lsg.SetDepthLevel | src/havlak/go/lsg.go:133-135 | only the depth level changes; likewise at `src/havlak/java_pro/lsg/SimpleLoop.java:169-171` |
| Lsg.AttachStep | src/havlak/go/lsg.go:215-221 | one turn of the attaching loop links the listed loop to the root exactly when it is neither marked root nor has a parent |
| Lsg.Lsg.AttachOrphans | src/havlak/go/lsg.go:214-222 | the arena after the attaching loop is Attached: every listed orphan has the root as parent and is one of its children, and every other loop is unchanged; likewise at `trunk/src/havlak/go_pro/lsg.go:169-176`; likewise at `src/havlak/cpp/mao-loops.h:276-281`; likewise at `trunk/src/havlak/javascript/LoopTesterApp.js:272-278` |
| Lsg.Lsg.AttachOne | src/havlak/go/lsg.go:215-221 | one turn of that loop, by AttachStep |
| Lsg.AttachedShape | src/havlak/go/lsg.go:213-224 | after attaching, the children sets are still a forest whose children name their parents, and every listed loop not marked root has a parent |
| Lsg.AttachedKeepsParentKnowsChild | src/havlak/go/lsg.go:219-221 | attaching keeps every parent listing its children |
| Lsg.ChildrenKnowParentTree | src/havlak/go/lsg.go:115-118 | since every child names its parent, no loop is the child of two loops |
| Lsg.ReachedFromRoot | src/havlak/go/lsg.go:226-234 | when every loop but the root has a parent that lists it, the nesting pass from the root reaches every loop |
| Lsg.Unreached | src/havlak/go/lsg.go:226-234 | a loop that no loop lists as a child is never reached by the nesting pass |
| Lsg.SubtreeClosed | src/havlak/go/lsg.go:228-229 | the loops the pass visits from `l` are closed under children |
| Lsg.Lsg.CalculateNestingLevel | src/havlak/go/lsg.go:213-224 | orphans are attached, then the child-update pass runs from the root at depth 0: depth 0 at the root, parent depth + 1 for each child, and each child's level max(parent's level, own level + 1); likewise at `trunk/src/havlak/go_pro/lsg.go:168-178` |
| Lsg.Lsg.CalculateNestingLevelRec | src/havlak/go/lsg.go:226-234 | below `l`: depths parent + 1, each child's level max(parent's old level, child's old level + 1); `l`'s own level and everything outside its subtree unchanged; only levels change; likewise at `trunk/src/havlak/go_pro/lsg.go:180-187` |
| Lsg.Lsg.VisitChild | src/havlak/go/lsg.go:229-232 | one child: recurse at depth + 1, then raise the child's level |
| Lsg.Lsg.CalculateNestingLevelByParent | src/havlak/cpp/mao-loops.h:274-285 | orphans are attached, then the parent-update pass runs from the root at depth 0; likewise at `trunk/src/havlak/javascript/LoopTesterApp.js:271-281` |
| Lsg.Lsg.CalculateNestingLevelRecByParent | src/havlak/cpp/mao-loops.h:288-297 | each loop of the subtree gets depth parent + 1 and nesting level Height: the maximum of its old level and 1 + each child's Height, in any child order; likewise at `trunk/src/havlak/javascript/LoopTesterApp.js:261-269` |
| Lsg.Lsg.VisitChildByParent | src/havlak/cpp/mao-loops.h:292-295 | one child: recurse, then raise the parent's level with set_nesting_level, which does not mark it root |
| Lsg.KidsHeightAdd | src/havlak/cpp/mao-loops.h:290-296 | the parent's level does not depend on the order the children are visited |
| Lsg.HeightAboveKid | src/havlak/cpp/mao-loops.h:294-295 | every loop's nesting level is above each child's |
| ObjectSets.ObjectSet.constructor | src/havlak/java_pro/lsg/SimpleLoop.java:51-55 | an empty set with room for two elements |
| ObjectSets.ObjectSet.Size | src/havlak/java_pro/lsg/SimpleLoop.java:73 | the size is the number of elements |
| ObjectSets.ObjectSet.Add | src/havlak/java_pro/lsg/SimpleLoop.java:56-71 | returns true iff `e` was not an element; the elements become Added(old, e): unchanged if present, `e` appended otherwise; they stay distinct; the array doubles exactly when an add finds it full |
| ObjectSets.ObjectSet.Grow | src/havlak/java_pro/lsg/SimpleLoop.java:62-67 | the new array is twice as long and starts with the old contents in order |
| ObjectSets.ObjectSet.Items | src/havlak/java_pro/lsg/SimpleLoop.java:74-87 | the iterator yields exactly the elements in insertion order, without repeats |
| ObjectSets.AddedKeeps | src/havlak/java_pro/lsg/SimpleLoop.java:56-70 | adding keeps the elements distinct and in order and puts `e` in; the size grows by one iff `e` was absent |
| ObjectSets.AddedIdempotent | src/havlak/java_pro/lsg/SimpleLoop.java:56-61 | adding the same element twice is adding it once |
| Findings.Chain | src/havlak/go/lsg.go:160-169 | a three-loop chain, nested, as the Go finder leaves it: all levels 0 and nothing left to attach |
| Findings.ChainSubtree | src/havlak/go/lsg.go:226-229 | both inner loops of the chain are reached from the root |
| Findings.ChildUpdateFlattens | src/havlak/go/lsg.go:231-232 | as written, the Go pass gives the chain levels 1, 1, 0 |
| Findings.ParentLevelsNestOutward | src/havlak/cpp/mao-loops.h:294-295 | with the parent update, every child's level is below its parent's and its depth is the parent's + 1 |
| Findings.ParentUpdateOnChain | src/havlak/cpp/mao-loops.h:224-229 | with the parent update, the chain gets levels 0, 1, 2 and depths 2, 1, 0 |
| Findings.Unlinked | src/havlak/go_pro/havlakloopfinder.go:335-336 | a loop about to be nested inside an outer loop that hangs under the root |
| Findings.FieldOnlyLinkSkipsNested | src/havlak/go_pro/havlakloopfinder.go:335-336 | the field-only link leaves a parent that does not list its child, and the nesting pass leaves the nested loop at depth 0 |
| Findings.LinkReachesNested | src/havlak/go/havlakloopfinder.go:366-367 | SetParent keeps both link directions, and the nested loop gets depth 2 |
| Findings.JsInvertsReducibility | trunk/src/havlak/javascript/LoopTesterApp.js:583-587 | as written, an irreducible header gives a reducible loop and a reducible header an irreducible one |
| Findings.GoRecordsReducibility | src/havlak/go/havlakloopfinder.go:343 | a loop is reducible iff its header is not irreducible |
| Findings.SharedSearch | trunk/src/havlak/javascript/LoopTesterApp.js:399-418 | the JavaScript DFS as written, its loop index being one global shared by all calls: exactly `lastid + 1` numbers given, and the index ends at or past the block's out-edge count |
| Findings.SharedEdges | trunk/src/havlak/javascript/LoopTesterApp.js:405-414 | the JavaScript out-edge loop as written: after a recursive call it resumes from the index the callee left, plus one; the last number given only grows |
| Findings.SharedSearchAll | trunk/src/havlak/javascript/LoopTesterApp.js:453-457 | the as-written JavaScript search of the whole graph from the start block, every block unvisited before |
| Findings.Triangle | trunk/src/havlak/javascript/LoopTesterApp.js:405 | the graph A to B, B to A, A to C, in which C is reachable from A |
| Findings.SharedIndexSkipsReachable | trunk/src/havlak/javascript/LoopTesterApp.js:405-414 | as written, the search from A numbers A and B and leaves C unvisited |
| Findings.SearchNumbersReachable | src/havlak/go/havlakloopfinder.go:162-166 | the intended search numbers C, as it numbers every reachable block |

## Left out

- Finder.HavlakLoopFinder.FindLoops: states which blocks head the new loops and in what order, against the reference search, but not each loop's body against an independent definition (dominance or strongly connected components). The bodies are stated per header by Finder.HavlakLoopFinder.ProcessHeader, through the worklist bookkeeping.
- Finder.HavlakLoopFinder.FindLoops: for the Go and go_pro ports it requires the block names to be exactly 0..n-1. Both ports fill nonBackPreds by block name (`src/havlak/go/havlakloopfinder.go:204-207`, `src/havlak/go_pro/havlakloopfinder.go:179-182`), so any other names index out of range or leave a nil map, and the program panics. The panic is not modelled.
- Finder.HavlakLoopFinder.FindLoops: the JavaScript findLoops (`trunk/src/havlak/javascript/LoopTesterApp.js:428-621`) has no check for a start block, so the "no start block" case is stated for the Go, go_pro and C++ ports only; Finder.FindHavlakLoops requires a start block for JavaScript.
- Finder.FindHavlakLoops: for the JavaScript port it requires a start block. The JavaScript findLoops has no check for one and would fail on an empty graph.
- Lsg.Lsg.CalculateNestingLevel: requires the children sets to form a forest below the root, with children at smaller arena indices than their parent. The same holds for Lsg.Lsg.CalculateNestingLevelByParent. The source's recursion terminates only on such graphs, and FindLoops is proved to keep them so.
- Finder.HavlakLoopFinder.GrowPool: states "no repeats" only for the members added by the worklist. The initial body of step d may list one representative twice (two back-edges from one collapsed loop), as in the source.
- The counter in Go's process-wide `loopCounter` is an explicit object passed in, not a package variable.
- UnionFind.UnionFindNodes.constructor: a Go node made with `new` has a nil parent, while the model makes each node its own parent. FindSet is only ever called on numbered nodes, which Init has already reset.
- Integer widths: counters, levels and DFS numbers are unbounded `nat`s. The source's `int` overflow is not modelled.
- The JavaScript `nonBackPreds` entries are arrays that keep duplicates (parallel edges, repeated irreducible entries). They are modelled as sets, so the 32*1024 bound counts distinct predecessors there.
- C++ KillAll on abort deletes the loops already made. The model only returns early, keeping them; dangling pointers are not modelled.
- C++ copies a union-find node before calling FindSet on it (`trunk/src/havlak/cpp/mao-loops.cc:306`, `:332`). Compression of the copy and pointers to it are not modelled: nodes are identified by DFS number.
- Pointer identity, `==` on objects and cyclic pointer graphs become indices into arenas.
- Dump, dump and DumpRec, and all printing are not modelled.
- The benchmark drivers (`looptesterapp.go`, `LoopTesterApp.cc`, the JavaScript benchmark functions from `buildDiamond` on) and the GWT client are not part of this model.
- ObjectSet's static `total` and `resize` counters and its shutdown hook are not modelled. The iterator's `remove`, which only throws, is not modelled either.
- JavaScript artefacts are not modelled: the `number` object keyed by the block's string, and DFS reading the global `cfg`. The model uses an index-keyed table.
- Finder.HavlakLoopFinder.DFS: for the JavaScript port the finder uses the intended search, not the one written with a shared global out-edge index (`trunk/src/havlak/javascript/LoopTesterApp.js:405`). As written, a block reachable from the start can stay unnumbered and is then treated as dead, so the JavaScript port can find fewer loops than the model says (see Findings).
- The Java SimpleLoop keeps its blocks and children in ObjectSets. The loop record uses Dafny sets; ObjectSets.ObjectSet models the container itself.
- `NumPred` and `NumSucc` are modelled as the lengths of the edge lists. As plain accessors they carry no contract of their own.
- The order in which Go maps, C++ `std::set`s and JavaScript arrays are iterated is an arbitrary choice. Every contract holds for every order.

## Findings

| source | as written | input that shows it | evidently intended | confidence | as-written member | corrected member |
|---|---|---|---|---|---|---|
| src/havlak/go/lsg.go:231-232 | after visiting child `ll`, the Go pass sets the child's level to max(parent's level, child's level + 1) | a chain root ⊃ loop 1 ⊃ loop 0, all at level 0: loops 0 and 1 both end at level 1 and the root stays 0 | the documented table (lsg.go:160-169) and the C++ and JavaScript ports: the parent's level becomes max(own, 1 + child's), giving 0, 1, 2 | not executed | Findings.ChildUpdateFlattens | Findings.ParentLevelsNestOutward |
| src/havlak/go_pro/havlakloopfinder.go:335-336 | a nested loop's `Parent` field is assigned directly, without AddChildLoop | loop 0 nested in loop 1 under the root: loop 1's Children stay empty, so CalculateNestingLevel never visits loop 0, which keeps depth 0 | SetParent, as in the other ports: the parent lists the child and the nested loop gets depth 2 | not executed | Findings.FieldOnlyLinkSkipsNested | Findings.LinkReachesNested |
| trunk/src/havlak/javascript/LoopTesterApp.js:583-587 | `isReducible` is set true when the header is irreducible and false otherwise | any header of class irreducible yields a loop marked reducible | reducible exactly when the header is not irreducible (its own comment at :598-599, and the Go port) | not executed | Findings.JsInvertsReducibility | Findings.GoRecordsReducibility |
| trunk/src/havlak/javascript/LoopTesterApp.js:405 | the DFS loop variable `target` is never declared, so all recursive calls share one global index, and a caller's loop resumes where its callee's stopped | edges A to B, B to A, A to C: B's loop leaves the index at 1, A's loop goes on from 2 and never visits C, which stays unnumbered and is taken for dead | a local index per call (`var target`), as in the Go and C++ ports: every block reachable from the start is numbered | not executed | Findings.SharedIndexSkipsReachable | DepthFirst.NumberedIffReachable |
