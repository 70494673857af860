/**
 * The control-flow graph the loop finder reads: basic blocks named by
 * integers, each with an ordered list of in-edges and out-edges, and a start
 * block.  Blocks live in an arena: block `b` is the `b`-th block created, so a
 * `*BasicBlock` pointer of the source is an index here.
 */
module Cfg {
  import opened Options

  /** What NewBasicBlockEdge returns: its source and destination blocks. */
  datatype BasicBlockEdge = BasicBlockEdge(src: nat, dst: nat)

  /** Edge list of block `b` in `edges`, or the empty list for a block that does not exist yet. */
  function EdgesOf(edges: seq<seq<nat>>, b: nat): seq<nat>
  {
    if b < |edges| then edges[b] else []
  }

  class Cfg {
    /** `names[b]` is the name of block `b`. */
    var names: seq<int>
    /** The name -> block map (`bb` / `Blocks` / `basic_block_map_`). */
    var blocks: map<int, nat>
    var inEdges: seq<seq<nat>>
    var outEdges: seq<seq<nat>>
    var startNode: Option<nat>
    /** Edges recorded by the C++ and JavaScript edge constructors (`edge_list_`, `edgeList`). */
    var edgeList: seq<BasicBlockEdge>

    ghost predicate Valid()
      reads this
    {
      && |inEdges| == |names| && |outEdges| == |names|
      && |blocks| == |names|
      && (forall b | 0 <= b < |names| :: names[b] in blocks && blocks[names[b]] == b)
      && (forall name | name in blocks :: blocks[name] < |names| && names[blocks[name]] == name)
      && (forall b, k | 0 <= b < |names| && 0 <= k < |inEdges[b]| :: inEdges[b][k] < |names|)
      && (forall b, k | 0 <= b < |names| && 0 <= k < |outEdges[b]| :: outEdges[b][k] < |names|)
      // the start block is the first block ever created
      && startNode == (if |names| == 0 then None else Some(0))
    }

    /**
     * The block names are exactly 0..n-1: the Go ports size their tables by
     * the number of blocks and index them by name.
     */
    ghost predicate NamesAreIndices()
      reads this
    {
      forall b | 0 <= b < |names| :: 0 <= names[b] < |names|
    }

    /** NewCFG: an empty graph without a start block. */
    constructor ()
      ensures Valid()
      ensures names == [] && blocks == map[] && startNode == None && edgeList == []
    {
      names, blocks, inEdges, outEdges, startNode, edgeList := [], map[], [], [], None, [];
    }

    function NumNodes(): (n: nat)
      reads this
      requires Valid()
      ensures n == |names|
    {
      |blocks|
    }

    function NumPred(b: nat): nat
      reads this
      requires Valid() && b < |names|
    {
      |inEdges[b]|
    }

    function NumSucc(b: nat): nat
      reads this
      requires Valid() && b < |names|
    {
      |outEdges[b]|
    }

    /**
     * CreateNode of the Go ports: a known name returns its block and changes
     * nothing; a new name appends exactly one block without edges, which
     * becomes the start block when it is the first one.
     */
    method CreateNode(name: int) returns (b: nat)
      requires Valid()
      modifies this
      ensures Valid() && edgeList == old(edgeList)
      ensures name in old(blocks) ==> b == old(blocks[name]) && unchanged(this)
      ensures name !in old(blocks) ==>
        && b == old(|names|)
        && names == old(names) + [name]
        && blocks == old(blocks)[name := b]
        && inEdges == old(inEdges) + [[]]
        && outEdges == old(outEdges) + [[]]
        && startNode == (if b == 0 then Some(b) else old(startNode))
    {
      if name in blocks {
        return blocks[name];
      }
      b := |names|;
      names := names + [name];
      blocks := blocks[name := b];
      inEdges := inEdges + [[]];
      outEdges := outEdges + [[]];
      if |blocks| == 1 {
        startNode := Some(b);
      }
    }

    /**
     * CreateNode of the C++ and JavaScript ports: the start block is assigned
     * whenever exactly one block exists after the call, on the known-name path
     * too.  The contract is the same as CreateNode's: re-assigning the only
     * block changes nothing.
     */
    method CreateNodeResettingStart(name: int) returns (b: nat)
      requires Valid()
      modifies this
      ensures Valid() && edgeList == old(edgeList)
      ensures name in old(blocks) ==> b == old(blocks[name]) && unchanged(this)
      ensures name !in old(blocks) ==>
        && b == old(|names|)
        && names == old(names) + [name]
        && blocks == old(blocks)[name := b]
        && inEdges == old(inEdges) + [[]]
        && outEdges == old(outEdges) + [[]]
        && startNode == (if b == 0 then Some(b) else old(startNode))
    {
      if name in blocks {
        b := blocks[name];
      } else {
        b := |names|;
        names := names + [name];
        blocks := blocks[name := b];
        inEdges := inEdges + [[]];
        outEdges := outEdges + [[]];
      }
      if |blocks| == 1 {
        startNode := Some(b);
      }
    }

    /** AddOutEdge and AddInEdge for one edge: append at the end of both lists. */
    method Link(from: nat, to: nat)
      requires Valid() && from < |names| && to < |names|
      modifies this
      ensures Valid()
      ensures names == old(names) && blocks == old(blocks) && startNode == old(startNode)
      ensures edgeList == old(edgeList)
      ensures forall b | 0 <= b < |names| ::
        outEdges[b] == old(outEdges[b]) + (if b == from then [to] else [])
      ensures forall b | 0 <= b < |names| ::
        inEdges[b] == old(inEdges[b]) + (if b == to then [from] else [])
    {
      outEdges := outEdges[from := outEdges[from] + [to]];
      inEdges := inEdges[to := inEdges[to] + [from]];
    }

    /**
     * NewBasicBlockEdge of the Go ports: the destination block is created
     * before the source block, so on an empty graph the destination becomes
     * the start block.
     */
    method NewBasicBlockEdge(from: int, to: int) returns (e: BasicBlockEdge)
      requires Valid()
      modifies this
      ensures Valid() && edgeList == old(edgeList)
      ensures e.src < |names| && e.dst < |names| && names[e.src] == from && names[e.dst] == to
      ensures old(names) <= names && |names| <= old(|names|) + 2
      ensures forall k | old(|names|) <= k < |names| :: names[k] == from || names[k] == to
      ensures old(names) == [] ==> e.dst == 0 && startNode == Some(e.dst)
      ensures forall b | 0 <= b < |names| ::
        outEdges[b] == EdgesOf(old(outEdges), b) + (if b == e.src then [e.dst] else [])
      ensures forall b | 0 <= b < |names| ::
        inEdges[b] == EdgesOf(old(inEdges), b) + (if b == e.dst then [e.src] else [])
    {
      var dst := CreateNode(to);
      var src := CreateNode(from);
      Link(src, dst);
      e := BasicBlockEdge(src, dst);
    }

    /**
     * The BasicBlockEdge constructor of the C++ and JavaScript ports: the
     * source block is created first, and the edge is recorded in the graph's
     * edge list.  On an empty graph the source becomes the start block.
     */
    method NewBasicBlockEdgeSourceFirst(from: int, to: int) returns (e: BasicBlockEdge)
      requires Valid()
      modifies this
      ensures Valid() && edgeList == old(edgeList) + [e]
      ensures e.src < |names| && e.dst < |names| && names[e.src] == from && names[e.dst] == to
      ensures old(names) <= names && |names| <= old(|names|) + 2
      ensures forall k | old(|names|) <= k < |names| :: names[k] == from || names[k] == to
      ensures old(names) == [] ==> e.src == 0 && startNode == Some(e.src)
      ensures forall b | 0 <= b < |names| ::
        outEdges[b] == EdgesOf(old(outEdges), b) + (if b == e.src then [e.dst] else [])
      ensures forall b | 0 <= b < |names| ::
        inEdges[b] == EdgesOf(old(inEdges), b) + (if b == e.dst then [e.src] else [])
    {
      var src := CreateNodeResettingStart(from);
      var dst := CreateNodeResettingStart(to);
      Link(src, dst);
      e := BasicBlockEdge(src, dst);
      edgeList := edgeList + [e];
    }
  }
}
