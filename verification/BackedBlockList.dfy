/** The linked list of backed blocks, updated in place, with its cached insertion point. */
module BackedBlockList {
  import opened Defs
  import opened Image
  import opened BackedBlock

  /** A list cell: the record of one backed block and the link to the next. */
  class Node {
    var val: Block
    var next: Node?

    constructor (val: Block)
      ensures this.val == val && next == null
    {
      this.val := val;
      next := null;
    }
  }

  function NodeAt(nodes: seq<Node>, i: nat): Node? {
    if i < |nodes| then nodes[i] else null
  }

  /** nodes is the acyclic chain that starts at head and carries blocks. */
  ghost predicate Chain(head: Node?, nodes: seq<Node>, blocks: seq<Block>)
    reads nodes
  {
    && head == NodeAt(nodes, 0)
    && |blocks| == |nodes|
    && (forall i {:trigger nodes[i].next} :: 0 <= i < |nodes| ==> nodes[i].next == NodeAt(nodes, i + 1))
    && (forall i {:trigger nodes[i].val} {:trigger blocks[i]} :: 0 <= i < |nodes| ==> nodes[i].val == blocks[i])
    && Distinct(nodes)
  }

  /** What merge_bb does: join the two blocks, leave them as they are, or stop at its assertion. */
  datatype MergeResult = Joined | Kept | Failed

  class List {
    var dataBlocks: Node?
    var lastUsed: Node?
    const blockSize: u32
    ghost var nodes: seq<Node>
    ghost var blocks: seq<Block>

    ghost predicate Shape()
      reads this, nodes
    {
      Chain(dataBlocks, nodes, blocks)
    }

    /** The list is well linked and the cache is null or a live node of it. */
    ghost predicate Valid()
      reads this, nodes
    {
      Shape() && (lastUsed == null || lastUsed in nodes)
    }

    constructor (blockSize: u32)
      ensures Valid() && nodes == [] && blocks == [] && this.blockSize == blockSize
    {
      this.blockSize := blockSize;
      dataBlocks, lastUsed := null, null;
      nodes, blocks := [], [];
    }

    /**
     * merge_bb: its assertion a->block < b->block fails for two neighbours that are out of order; blocks of the same
     * kind are told apart by a division, which a block size of zero does not survive.
     */
    method MergeBb(a: Node?, b: Node?, ghost i: nat) returns (ret: MergeResult)
      requires Shape()
      requires a == NodeAt(nodes, i) && b == NodeAt(nodes, i + 1)
      modifies this`nodes, this`blocks, a
      ensures Shape()
      ensures ret == Failed <==> i + 1 < |old(blocks)| && !Passes(old(blocks)[i], old(blocks)[i + 1], blockSize)
      ensures ret != Failed ==>
        (ret == Joined <==> i + 1 < |old(blocks)| && Mergeable(old(blocks)[i], old(blocks)[i + 1], blockSize))
      ensures blocks == if ret == Failed then old(blocks) else MergeAt(old(blocks), i, blockSize)
      ensures nodes == if ret == Joined then Removed(old(nodes), i + 1) else old(nodes)
      ensures a != null ==> i < |nodes| && nodes[i] == a && (0 < i ==> nodes[i - 1] == old(nodes)[i - 1])
      ensures forall n :: n in nodes ==> n in old(nodes)
    {
      assert i + 1 < |blocks| && (blockSize == 0 || !SameKind(blocks[i], blocks[i + 1])) ==>
        !Mergeable(blocks[i], blocks[i + 1], blockSize);
      hide Distinct, Mergeable, SameKind;
      assert i < |nodes| ==> nodes[i].val == blocks[i];
      assert i + 1 < |nodes| ==> nodes[i + 1].val == blocks[i + 1];
      if a == null || b == null {
        MergeAtSame(blocks, i, blockSize);
        return Kept;
      }
      if a.val.block >= b.val.block {
        return Failed;
      }
      if !SameKind(a.val, b.val) {
        MergeAtSame(blocks, i, blockSize);
        return Kept;
      }
      if blockSize == 0 {
        return Failed;
      }
      if !Mergeable(a.val, b.val, blockSize) {
        MergeAtSame(blocks, i, blockSize);
        return Kept;
      }
      assert Mergeable(blocks[i], blocks[i + 1], blockSize);
      Absorb(a, b, i);
      ret := Joined;
    }

    /** a takes over the bytes and the link of its successor b. */
    method Absorb(a: Node, b: Node, ghost i: nat)
      requires Shape() && i + 1 < |nodes| && a == nodes[i] && b == nodes[i + 1]
      modifies this`nodes, this`blocks, a
      ensures Shape()
      ensures nodes == Removed(old(nodes), i + 1)
      ensures blocks == Removed(old(blocks)[i := Merged(old(blocks)[i], old(blocks)[i + 1])], i + 1)
      ensures forall n :: n in nodes ==> n in old(nodes)
    {
      hide Distinct, Merged;
      OthersDiffer(nodes, i);
      RemovedDistinct(nodes, i + 1);
      RemovedMembers(nodes, i + 1);
      assert a.val == blocks[i] && b.val == blocks[i + 1];
      a.val := Merged(a.val, b.val);
      a.next := b.next;
      ghost var was, wasBlocks := nodes, blocks[i := a.val];
      nodes, blocks := Removed(was, i + 1), Removed(wasBlocks, i + 1);
      assert Chain(dataBlocks, nodes, blocks) by {
        forall k | 0 <= k < |nodes|
          ensures nodes[k].next == NodeAt(nodes, k + 1) && nodes[k].val == blocks[k]
        {
          if k <= i {
            assert nodes[k] == was[k] && was[k].val == wasBlocks[k];
          } else {
            assert nodes[k] == was[k + 1] && was[k + 1].val == wasBlocks[k + 1];
          }
        }
      }
    }

    /** queue_bb: the search starts at the cached node when it can; false when merge_bb stops the program. */
    method QueueBb(newBb: Node) returns (ok: bool)
      requires Valid() && newBb !in nodes && newBb.next == null && Ascending(blocks)
      modifies this, nodes, newBb
      ensures ok == Addable(old(blocks), old(newBb.val), blockSize)
      ensures ok ==> Valid() && blocks == Queue(old(blocks), old(newBb.val), blockSize)
      ensures forall n :: n in nodes ==> n in old(nodes) || n == newBb
    {
      ghost var v := newBb.val;
      if dataBlocks == null {
        dataBlocks := newBb;
        nodes, blocks := [newBb], [v];
        return true;
      }
      assert blocks[0] == dataBlocks.val;
      if dataBlocks.val.block > newBb.val.block {
        Prepend(newBb);
        return true;
      }
      var bb := InsertionPoint(newBb.val.block);
      lastUsed := newBb;
      ok := LinkAndMerge(bb, newBb, LinkPos(blocks, v.block));
    }

    /** The node after which a block number belongs, searched from the cached node when that lies before it. */
    method InsertionPoint(block: u32) returns (bb: Node)
      requires Valid() && nodes != [] && blocks[0].block <= block && Ascending(blocks)
      ensures bb == nodes[LinkPos(blocks, block)]
    {
      bb := if lastUsed != null && block > lastUsed.val.block then lastUsed else dataBlocks;
      ghost var k: nat :| k < |nodes| && nodes[k] == bb;
      assert nodes[0].val == blocks[0] && nodes[k].val == blocks[k];
      hide Distinct, Ascending, LinkPos;
      while bb.next != null && bb.next.val.block < block
        invariant k < |nodes| && bb == nodes[k] && (k == 0 || blocks[k].block < block)
        decreases |nodes| - k
      {
        assert nodes[k + 1].val == blocks[k + 1];
        bb, k := bb.next, k + 1;
      }
      assert k + 1 < |nodes| ==> nodes[k + 1].val == blocks[k + 1];
      PositionUnique(blocks, block, k);
    }

    /** The second half of queue_bb: link the new block after bb, then merge it with both neighbours. */
    method LinkAndMerge(bb: Node, newBb: Node, ghost k: nat) returns (ok: bool)
      requires Shape() && newBb !in nodes && newBb.next == null && lastUsed == newBb && Ascending(blocks)
      requires k < |nodes| && bb == nodes[k] && LinkPos(blocks, newBb.val.block) == k &&
        blocks[0].block <= newBb.val.block
      modifies this, nodes, newBb
      ensures ok == Addable(old(blocks), old(newBb.val), blockSize)
      ensures ok ==> Valid() && blocks == Queue(old(blocks), old(newBb.val), blockSize)
      ensures forall n :: n in nodes ==> n in old(nodes) || n == newBb
    {
      hide Distinct, Ascending, LinkPos, Addable, Passes, MergeAt;
      ghost var v := newBb.val;
      InsertedMembers(nodes, k + 1, newBb);
      LinkOrder(blocks, v, blockSize);
      LinkAfter(bb, newBb, k);
      assert bb == nodes[k] && newBb == nodes[k + 1];
      ok := MergeNeighbours(bb, newBb, k);
    }

    /** Merge with the next block, then with the one before. */
    method MergeNeighbours(bb: Node, newBb: Node, ghost k: nat) returns (ok: bool)
      requires Shape() && lastUsed == newBb
      requires k + 1 < |nodes| && bb == nodes[k] && newBb == nodes[k + 1]
      modifies this, bb, newBb
      ensures ok == (Passes(old(blocks)[k], old(blocks)[k + 1], blockSize)
        && (k + 2 < |old(blocks)| ==> Passes(old(blocks)[k + 1], old(blocks)[k + 2], blockSize)))
      ensures ok ==> Valid() && blocks == MergeAt(MergeAt(old(blocks), k + 1, blockSize), k, blockSize)
      ensures forall n :: n in nodes ==> n in old(nodes)
    {
      hide *;
      NextOf(k + 1);
      MergeAtPasses(blocks, k + 1, blockSize);
      var r := MergeBb(newBb, newBb.next, k + 1);
      if r == Failed {
        return false;
      }
      NextOf(k);
      NextOf(k + 1);
      r := MergeBb(bb, newBb, k);
      Linked();
      if r == Joined {
        lastUsed := bb;
      }
      ok := r != Failed;
      Cached(k + if r == Joined then 0 else 1);
    }

    lemma NextOf(k: nat)
      requires Shape() && k < |nodes|
      ensures |nodes| == |blocks| && nodes[k].next == NodeAt(nodes, k + 1) && NodeAt(nodes, k) == nodes[k]
    {
      hide Distinct;
    }

    lemma Linked()
      requires Shape()
      ensures Chain(dataBlocks, nodes, blocks)
    {
      hide Chain;
    }

    lemma Cached(k: nat)
      requires Chain(dataBlocks, nodes, blocks) && k < |nodes| && lastUsed == nodes[k]
      ensures Valid()
    {
      hide Chain;
    }

    method Prepend(newBb: Node)
      requires Valid() && newBb !in nodes && newBb.next == null
      requires 0 < |blocks| && newBb.val.block <= blocks[0].block
      modifies this, newBb
      ensures Valid()
      ensures blocks == Insert(old(blocks), old(newBb.val)) && InsertPos(old(blocks), old(newBb.val).block) == 0
      ensures forall n :: n in nodes ==> n in old(nodes) || n == newBb
    {
      hide Distinct;
      InsertedDistinct(nodes, 0, newBb);
      InsertedMembers(nodes, 0, newBb);
      newBb.next := dataBlocks;
      dataBlocks := newBb;
      ghost var was := nodes;
      nodes, blocks := Inserted(nodes, 0, newBb), Insert(blocks, newBb.val);
      forall i | 0 <= i < |nodes|
        ensures nodes[i].next == NodeAt(nodes, i + 1) && nodes[i].val == blocks[i]
      {
        if i > 0 {
          assert nodes[i] == was[i - 1];
        }
      }
      assert lastUsed != null ==> lastUsed in nodes by {
        assert forall i :: 0 <= i < |was| ==> nodes[i + 1] == was[i];
      }
    }

    method LinkAfter(bb: Node, newBb: Node, ghost k: nat)
      requires Shape() && newBb !in nodes && newBb.next == null
      requires k < |nodes| && bb == nodes[k]
      modifies this`nodes, this`blocks, bb, newBb
      ensures Shape()
      ensures nodes == Inserted(old(nodes), k + 1, newBb)
      ensures blocks == Inserted(old(blocks), k + 1, old(newBb.val))
    {
      hide Distinct;
      OthersDiffer(nodes, k);
      InsertedDistinct(nodes, k + 1, newBb);
      if bb.next == null {
        bb.next := newBb;
      } else {
        newBb.next := bb.next;
        bb.next := newBb;
      }
      ghost var was, wasBlocks := nodes, blocks;
      assert bb.next == newBb && newBb.next == NodeAt(was, k + 1);
      nodes, blocks := Inserted(was, k + 1, newBb), Inserted(wasBlocks, k + 1, newBb.val);
      assert Chain(dataBlocks, nodes, blocks) by {
        forall i | 0 <= i < |nodes|
          ensures nodes[i].next == NodeAt(nodes, i + 1) && nodes[i].val == blocks[i]
        {
          if i <= k {
            assert nodes[i] == was[i] && was[i].val == wasBlocks[i];
          } else if i > k + 1 {
            assert nodes[i] == was[i - 1] && was[i - 1].val == wasBlocks[i - 1];
          }
        }
      }
    }

    /**
     * backed_block_add_data, _file, _fd and _fill: they differ only in the source they record. False when the program
     * stops: the block number is in use, or two blocks of a kind meet in a list of block size zero.
     */
    method Add(src: Source, len: u32, block: u32) returns (ok: bool)
      requires Valid() && Ascending(blocks)
      modifies this, nodes
      ensures ok == Addable(old(blocks), Block(block, len, src), blockSize)
      ensures ok ==> Valid() && blocks == Queue(old(blocks), Block(block, len, src), blockSize)
      ensures forall n :: n in nodes ==> n in old(nodes) || fresh(n)
    {
      var bb := new Node(Block(block, len, src));
      ok := QueueBb(bb);
    }

    /** backed_block_split: bb keeps the whole blocks that fit in maxLen bytes, a new node takes the rest. */
    method Split(bb: Node, maxLen: u32, ghost i: nat)
      requires Valid() && 0 < blockSize && i < |nodes| && bb == nodes[i]
      modifies this`nodes, this`blocks, bb
      ensures Valid()
      ensures blocks == SplitAt(old(blocks), i, maxLen, blockSize)
      ensures nodes[i] == bb && nodes[..i] == old(nodes)[..i]
      ensures forall n :: n in nodes ==> n in old(nodes) || fresh(n)
    {
      hide Distinct, HeadOf, TailOf, AlignDown;
      AlignDownBounds(maxLen, blockSize);
      var n: u32 := AlignDown(maxLen, blockSize);
      assert bb.val == blocks[i];
      if bb.val.len <= n {
        return;
      }
      var newBb := new Node(TailOf(bb.val, n, blockSize));
      InsertedMembers(nodes, i + 1, newBb);
      LinkAfter(bb, newBb, i);
      Shorten(bb, HeadOf(bb.val, n), i);
    }

    method Shorten(bb: Node, val: Block, ghost i: nat)
      requires Valid() && i < |nodes| && bb == nodes[i]
      modifies this`blocks, bb`val
      ensures Valid()
      ensures blocks == old(blocks)[i := val]
    {
      hide Distinct;
      OthersDiffer(nodes, i);
      bb.val := val;
      blocks := blocks[i := val];
      forall k | 0 <= k < |nodes|
        ensures nodes[k].next == NodeAt(nodes, k + 1) && nodes[k].val == blocks[k]
      {
        assert k != i ==> nodes[k] != bb;
      }
    }
  }

  /** A run of linked nodes, wherever its last link goes. */
  ghost predicate Run(run: seq<Node>, blocks: seq<Block>)
    reads run
  {
    && |run| == |blocks|
    && (forall i {:trigger run[i].next} :: 0 <= i < |run| - 1 ==> run[i].next == NodeAt(run, i + 1))
    && (forall i {:trigger run[i].val} {:trigger blocks[i]} :: 0 <= i < |run| ==> run[i].val == blocks[i])
    && Distinct(run)
  }

  /** The end of a run given by its first node: the last node of the list. */
  method LastOf(from: List, start: Node, ghost s: nat) returns (end: Node)
    requires from.Valid() && s < |from.nodes| && start == from.nodes[s]
    ensures end == from.nodes[|from.nodes| - 1]
  {
    hide Distinct;
    end := start;
    ghost var k := s;
    while end.next != null
      invariant s <= k < |from.nodes| && end == from.nodes[k]
      decreases |from.nodes| - k
    {
      end, k := end.next, k + 1;
    }
  }

  /** The unlinking half of backed_block_list_move: the run from start to end leaves the list. */
  method Unlink(from: List, start: Node, end: Node, ghost s: nat, ghost n: nat)
    requires from.Valid() && s < n <= |from.nodes| && start == from.nodes[s] && end == from.nodes[n - 1]
    modifies from, from.nodes
    ensures from.Valid() && from.lastUsed == null
    ensures from.nodes == Without(old(from.nodes), s, n) && from.blocks == Without(old(from.blocks), s, n)
    ensures Run(old(from.nodes)[s..n], old(from.blocks)[s..n]) && Apart(from.nodes, old(from.nodes)[s..n])
  {
    from.lastUsed := null;
    RunSlice(from, s, n);
    WithoutDistinct(from.nodes, s, n);
    if from.dataBlocks == start {
      FirstIs(from, start, s);
      hide Distinct, Apart, Run;
      UnlinkHead(from, end, n);
    } else {
      hide Distinct, Apart, Run;
      var bb := PredecessorOf(from, start, s);
      UnlinkAfter(from, bb, end, s, n);
    }
  }

  lemma FirstIs(from: List, start: Node, s: nat)
    requires from.Valid() && s < |from.nodes| && start == from.nodes[s] == from.dataBlocks
    ensures s == 0
  {
  }

  /** The node whose successor is start. */
  method PredecessorOf(from: List, start: Node, ghost s: nat) returns (bb: Node)
    requires from.Valid() && 0 <= s < |from.nodes| && start == from.nodes[s] != from.dataBlocks
    ensures 0 < s && bb == from.nodes[s - 1]
  {
    assert 0 < s;
    OthersDiffer(from.nodes, s);
    hide Distinct;
    bb := from.dataBlocks;
    ghost var k := 0;
    while bb.next != start
      invariant 0 <= k < s && bb == from.nodes[k]
      decreases s - k
    {
      bb, k := bb.next, k + 1;
    }
  }

  method UnlinkHead(from: List, end: Node, ghost n: nat)
    requires from.Valid() && 0 < n <= |from.nodes| && end == from.nodes[n - 1] && from.lastUsed == null
    modifies from
    ensures from.Valid() && from.lastUsed == null
    ensures from.nodes == Without(old(from.nodes), 0, n) && from.blocks == Without(old(from.blocks), 0, n)
  {
    WithoutDistinct(from.nodes, 0, n);
    hide Distinct, Apart;
    ghost var was, wasBlocks := from.nodes, from.blocks;
    from.dataBlocks := end.next;
    from.nodes, from.blocks := Without(was, 0, n), Without(wasBlocks, 0, n);
    forall i | 0 <= i < |from.nodes|
      ensures from.nodes[i].next == NodeAt(from.nodes, i + 1) && from.nodes[i].val == from.blocks[i]
    {
      assert from.nodes[i] == was[n + i];
    }
  }

  lemma RunSlice(from: List, s: nat, n: nat)
    requires from.Valid() && s <= n <= |from.nodes|
    ensures Run(from.nodes[s..n], from.blocks[s..n])
    ensures 0 < s ==> from.nodes[s - 1] !in from.nodes[s..n]
  {
  }

  /** The links that remain once a run is out, but for the one before the run. */
  lemma LinksLeft(from: List, s: nat, n: nat)
    requires from.Valid() && 0 < s < n <= |from.nodes|
    ensures var r, b := Without(from.nodes, s, n), Without(from.blocks, s, n);
      && Distinct(r) && |r| == |b| && r[s - 1] == from.nodes[s - 1] && NodeAt(r, 0) == NodeAt(from.nodes, 0)
      && NodeAt(r, s) == from.nodes[n - 1].next
      && (forall i :: 0 <= i < |r| && i != s - 1 ==> r[i].next == NodeAt(r, i + 1) && r[i] != r[s - 1])
      && (forall i :: 0 <= i < |r| ==> r[i].val == b[i])
  {
    var l, r := from.nodes, Without(from.nodes, s, n);
    WithoutDistinct(l, s, n);
    OthersDiffer(r, s - 1);
    hide Distinct, Apart;
    forall i | 0 <= i < |r|
      ensures r[i].val == Without(from.blocks, s, n)[i]
      ensures i != s - 1 ==> r[i].next == NodeAt(r, i + 1)
    {
      var k := if i < s then i else i + (n - s);
      assert r[i] == l[k] && l[k].val == from.blocks[k] && l[k].next == NodeAt(l, k + 1);
    }
  }

  method UnlinkAfter(from: List, bb: Node, end: Node, ghost s: nat, ghost n: nat)
    requires from.Valid() && 0 < s < n <= |from.nodes| && bb == from.nodes[s - 1] && end == from.nodes[n - 1]
    requires from.lastUsed == null
    modifies from`nodes, from`blocks, bb`next
    ensures from.Valid() && from.lastUsed == null
    ensures from.nodes == Without(old(from.nodes), s, n) && from.blocks == Without(old(from.blocks), s, n)
  {
    LinksLeft(from, s, n);
    hide Distinct, Without, NodeAt;
    bb.next := end.next;
    from.nodes, from.blocks := Without(from.nodes, s, n), Without(from.blocks, s, n);
    ghost var r, l := from.nodes, from.blocks;
    assert Chain(from.dataBlocks, r, l) by {
      forall i | 0 <= i < |r|
        ensures r[i].next == NodeAt(r, i + 1) && r[i].val == l[i]
      {
      }
    }
  }

  /** The linking half: into an empty list, or after the first node whose successor lies beyond the run. */
  method LinkRun(to: List, start: Node, end: Node, ghost run: seq<Node>, ghost runBlocks: seq<Block>)
    requires to.Valid() && Run(run, runBlocks) && run != [] && Apart(to.nodes, run)
    requires start == run[0] && end == run[|run| - 1]
    modifies to, to.nodes, end
    ensures to.Valid() && to.lastUsed == null
    ensures to.blocks == Splice(old(to.blocks), runBlocks)
    ensures forall n :: n in to.nodes ==> n in old(to.nodes) || n in run
  {
    to.lastUsed := null;
    if to.dataBlocks == null {
      LinkRunAlone(to, start, end, run, runBlocks);
    } else {
      hide Distinct, Apart;
      var bb := to.dataBlocks;
      ghost var k := 0;
      while bb.next != null && bb.next.val.block <= start.val.block
        invariant 0 <= k < |to.nodes| && bb == to.nodes[k]
        invariant forall i :: 1 <= i <= k ==> to.blocks[i].block <= runBlocks[0].block
        decreases |to.nodes| - k
      {
        assert to.nodes[k + 1].val == to.blocks[k + 1];
        bb, k := bb.next, k + 1;
      }
      assert k + 1 < |to.nodes| ==> to.nodes[k + 1].val == to.blocks[k + 1];
      SplicePosUnique(to.blocks, runBlocks[0].block, k + 1);
      LinkRunAfter(to, bb, start, end, k, run, runBlocks);
    }
  }

  method LinkRunAlone(to: List, start: Node, end: Node, ghost run: seq<Node>, ghost runBlocks: seq<Block>)
    requires Run(run, runBlocks) && run != []
    requires start == run[0] && end == run[|run| - 1]
    modifies to`dataBlocks, to`nodes, to`blocks, end`next
    ensures to.Shape() && to.nodes == run && to.blocks == runBlocks
  {
    OthersDiffer(run, |run| - 1);
    hide Distinct;
    to.dataBlocks := start;
    end.next := null;
    to.nodes, to.blocks := run, runBlocks;
    forall i | 0 <= i < |run|
      ensures run[i].next == NodeAt(run, i + 1)
    {
    }
  }

  lemma SplicePosUnique(l: seq<Block>, k: nat, j: nat)
    requires 0 < j <= |l| && (forall i :: 1 <= i < j ==> l[i].block <= k) && (j < |l| ==> k < l[j].block)
    ensures SplicePos(l, k, 1) == j
  {
  }

  method LinkRunAfter(to: List, bb: Node, start: Node, end: Node, ghost k: nat,
                      ghost run: seq<Node>, ghost runBlocks: seq<Block>)
    requires to.Valid() && Run(run, runBlocks) && run != [] && Apart(to.nodes, run)
    requires start == run[0] && end == run[|run| - 1] && k < |to.nodes| && bb == to.nodes[k]
    modifies to`nodes, to`blocks, bb, end
    ensures to.Shape()
    ensures to.nodes == Spliced(old(to.nodes), k + 1, run) && to.blocks == Spliced(old(to.blocks), k + 1, runBlocks)
  {
    SplicedDistinct(to.nodes, k + 1, run);
    OthersDiffer(to.nodes, k);
    OthersDiffer(run, |run| - 1);
    hide Distinct;
    ghost var was, wasBlocks := to.nodes, to.blocks;
    end.next := bb.next;
    bb.next := start;
    to.nodes, to.blocks := Spliced(was, k + 1, run), Spliced(wasBlocks, k + 1, runBlocks);
    forall i | 0 <= i < |to.nodes|
      ensures to.nodes[i].next == NodeAt(to.nodes, i + 1) && to.nodes[i].val == to.blocks[i]
    {
      if i < k + 1 {
        assert to.nodes[i] == was[i];
      } else if i < k + 1 + |run| {
        assert to.nodes[i] == run[i - (k + 1)] && run[i - (k + 1)].val == runBlocks[i - (k + 1)];
      } else {
        assert to.nodes[i] == was[i - |run|];
      }
    }
  }

  /**
   * backed_block_list_move: the run from start to end, which are blocks s to n - 1 of the list, or from the head or to
   * the last block when they are null.
   */
  method ListMove(from: List, to: List, start: Node?, end: Node?, ghost s: nat, ghost n: nat)
    requires from != to && from.Valid() && to.Valid() && Apart(from.nodes, to.nodes) && s <= n <= |from.nodes|
    requires if start == null then s == 0 else s < n && start == from.nodes[s]
    requires if end == null then n == |from.nodes| else s < n && end == from.nodes[n - 1]
    modifies from, to, from.nodes, to.nodes
    ensures from.Valid() && to.Valid() && Apart(from.nodes, to.nodes)
    ensures from.nodes == Without(old(from.nodes), s, n) && from.blocks == Without(old(from.blocks), s, n)
    ensures to.blocks == Splice(old(to.blocks), old(from.blocks)[s..n])
    ensures forall x :: x in to.nodes ==> x in old(to.nodes) || x in old(from.nodes)
  {
    var first := if start == null then from.dataBlocks else start;
    if first == null {
      return;
    }
    var last := end;
    if last == null {
      last := LastOf(from, first, s);
    }
    ghost var run, runBlocks := from.nodes[s..n], from.blocks[s..n];
    RunApart(from.nodes, to.nodes, s, n);
    Unlink(from, first, last, s, n);
    assert forall i :: 0 <= i < |from.nodes| ==> from.nodes[i] !in to.nodes && from.nodes[i] !in run;
    hide Distinct;
    LinkRun(to, first, last, run, runBlocks);
  }

  lemma RunApart(l: seq<Node>, other: seq<Node>, s: nat, n: nat)
    requires Apart(l, other) && s <= n <= |l|
    ensures Apart(other, l[s..n]) && forall i :: 0 <= i < |Without(l, s, n)| ==> Without(l, s, n)[i] !in other
  {
  }

  /** The element after which queue_bb links a block with number k: at least the first. */
  function LinkPos(l: seq<Block>, k: nat): (i: nat)
    ensures l != [] ==> i < |l|
  {
    if InsertPos(l, k) == 0 then 0 else InsertPos(l, k) - 1
  }

  /** In an ascending list the insertion point is the only place between smaller and larger block numbers. */
  lemma PositionUnique(l: seq<Block>, k: nat, i: nat)
    requires Ascending(l) && i < |l| && l[0].block <= k
    requires (i == 0 || l[i].block < k) && (i + 1 < |l| ==> k <= l[i + 1].block)
    ensures LinkPos(l, k) == i
  {
    var j := InsertPos(l, k);
  }

  /** A block can be added exactly when merge_bb gets past it and both neighbours. */
  lemma LinkOrder(l: seq<Block>, b: Block, bs: nat)
    requires Ascending(l) && l != [] && l[0].block <= b.block
    ensures var k := LinkPos(l, b.block);
      && (Addable(l, b, bs) <==> Passes(l[k], b, bs) && (k + 1 < |l| ==> Passes(b, l[k + 1], bs)))
      && (Addable(l, b, bs) ==> Queue(l, b, bs) == MergeAt(MergeAt(Inserted(l, k + 1, b), k + 1, bs), k, bs))
  {
    hide MergeAt, SameKind;
    var j := InsertPos(l, b.block);
  }

  /** A merge does not change how its block compares with the one before. */
  lemma MergeAtPasses(l: seq<Block>, i: nat, bs: nat)
    requires 0 < i < |l|
    ensures i < |MergeAt(l, i, bs)|
    ensures Passes(MergeAt(l, i, bs)[i - 1], MergeAt(l, i, bs)[i], bs) <==> Passes(l[i - 1], l[i], bs)
  {
  }

  lemma SortedAscending(l: seq<Block>, bs: nat)
    requires 0 < bs && Sorted(l, bs)
    ensures Ascending(l)
  {
  }

  lemma FreeUnused(l: seq<Block>, b: Block, bs: nat)
    requires 0 < bs && Free(l, b, bs)
    ensures Unused(l, b.block)
  {
  }
}
