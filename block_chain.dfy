/**
  The block tree. Nodes live in an arena (a sequence); a node refers to its parent and to
  its children by index, children are appended in insertion order and always have a larger
  index than their parent, so index order is creation order. Node 0 is the genesis node.
*/
module Chain {
  import opened Wrappers
  import opened Utxo
  import opened TxHandling

  /** How far behind the highest node a parent may be and still receive a child. */
  const CUT_OFF_AGE: int := 10

  /** A block: its hash, its parent's hash (absent for a genesis block), its coinbase and its transactions. */
  datatype Block = Block(hash: Hash, prevBlockHash: Option<Hash>, coinbase: Transaction, txs: seq<Transaction>)

  /** A node: its block, its parent and children (arena indices), its own UTXO pool and its two counters. */
  datatype BlockNode = BlockNode(
    block: Block,
    parent: Option<nat>,
    children: seq<nat>,
    utxos: Pool,
    blockNumber: int,
    height: int)

  type Tree = seq<BlockNode>

  // ---------------------------------------------------------------------------------------
  // Shape of the tree

  /** Node i hangs under an earlier node, is listed among its children, and counts one more than it. */
  predicate ParentLink(t: Tree, i: nat)
    requires i < |t|
  {
    match t[i].parent
    case None => false
    case Some(p) =>
      && p < i
      && i in t[p].children
      && t[i].height == t[p].height + 1
      && t[i].blockNumber == t[p].blockNumber + 1
  }

  /** The arena invariant: one root at index 0 with both counters 0; every other node linked to its parent. */
  predicate TreeShape(t: Tree) {
    && |t| > 0
    && t[0].parent == None && t[0].height == 0 && t[0].blockNumber == 0
    && (forall i :: 0 < i < |t| ==> ParentLink(t, i))
    && (forall i, k :: 0 <= i < |t| && 0 <= k < |t[i].children| ==>
          i < t[i].children[k] < |t| && t[t[i].children[k]].parent == Some(i))
  }

  /** Both counters start at 0 and grow by one per level, so a node's block number is its height. */
  lemma {:induction false} BlockNumberIsHeight(t: Tree, i: nat)
    requires TreeShape(t) && i < |t|
    ensures t[i].blockNumber == t[i].height
    decreases i
  {
    if i > 0 {
      assert ParentLink(t, i);
      BlockNumberIsHeight(t, t[i].parent.value);
    }
  }

  /** A new node under `parent`, or a root: no children yet, both counters one more than the parent's. */
  function MakeNode(t: Tree, blk: Block, parent: Option<nat>, pool: Pool): BlockNode
    requires parent.Some? ==> parent.value < |t|
  {
    match parent
    case None => BlockNode(blk, None, [], pool, 0, 0)
    case Some(p) => BlockNode(blk, parent, [], pool, t[p].blockNumber + 1, t[p].height + 1)
  }

  /** Adding one child to p and appending a node keeps every existing node's link to its parent. */
  lemma AttachKeepsLinks(t: Tree, p: nat, r: Tree)
    requires TreeShape(t) && p < |t| && |r| == |t| + 1
    requires r[p] == t[p].(children := t[p].children + [|t|])
    requires forall i :: 0 <= i < |t| && i != p ==> r[i] == t[i]
    ensures forall i :: 0 < i < |t| ==> ParentLink(r, i)
  {
    forall i | 0 < i < |t|
      ensures ParentLink(r, i)
    {
      assert ParentLink(t, i);
      var q := t[i].parent.value;
      assert r[i].parent == t[i].parent && r[i].height == t[i].height && r[i].blockNumber == t[i].blockNumber;
      assert r[q].height == t[q].height && r[q].blockNumber == t[q].blockNumber;
      assert i in r[q].children;
    }
  }

  /**
    The tree after appending a new node with `blk` and `pool` to node p's children: the new
    node is one level below p, p gains exactly this child, and no other node changes.
  */
  function AttachChild(t: Tree, p: nat, blk: Block, pool: Pool): (r: Tree)
    requires TreeShape(t) && p < |t|
    ensures TreeShape(r) && |r| == |t| + 1
    ensures r[|t|].block == blk && r[|t|].utxos == pool && r[|t|].parent == Some(p) && r[|t|].children == []
    ensures r[|t|].height == t[p].height + 1
    ensures r[p] == t[p].(children := t[p].children + [|t|])
    ensures forall i :: 0 <= i < |t| && i != p ==> r[i] == t[i]
  {
    var r := t[p := t[p].(children := t[p].children + [|t|])] + [MakeNode(t, blk, Some(p), pool)];
    AttachKeepsLinks(t, p, r);
    assert ParentLink(r, |t|);
    r
  }

  // ---------------------------------------------------------------------------------------
  // Depth-first order

  /** The nodes of head's subtree in depth-first order, children in insertion order. */
  function Preorder(t: Tree, head: nat): (r: seq<nat>)
    requires TreeShape(t) && head < |t|
    ensures |r| > 0 && r[0] == head
    ensures forall i :: 0 <= i < |r| ==> head <= r[i] < |t|
    decreases |t| - head, 1, 0
  {
    [head] + Descendants(t, head, |t[head].children|)
  }

  /** The subtrees of head's first k children, one after the other, in depth-first order. */
  function Descendants(t: Tree, head: nat, k: nat): (r: seq<nat>)
    requires TreeShape(t) && head < |t| && k <= |t[head].children|
    ensures forall i :: 0 <= i < |r| ==> head < r[i] < |t|
    decreases |t| - head, 0, k
  {
    if k == 0 then []
    else Descendants(t, head, k - 1) + Preorder(t, t[head].children[k - 1])
  }

  lemma {:induction false} DescendantsPrefix(t: Tree, head: nat, k: nat, m: nat)
    requires TreeShape(t) && head < |t| && k <= m <= |t[head].children|
    ensures Descendants(t, head, k) <= Descendants(t, head, m)
    decreases m
  {
    if k < m {
      DescendantsPrefix(t, head, k, m - 1);
    }
  }

  /** The head and the subtrees of its first k children: what a depth-first walk has met after k children. */
  function Visited(t: Tree, head: nat, k: nat): (r: seq<nat>)
    requires TreeShape(t) && head < |t| && k <= |t[head].children|
    ensures |r| > 0 && NodesOf(t, r)
  {
    [head] + Descendants(t, head, k)
  }

  // ---------------------------------------------------------------------------------------
  // The highest node

  /** All of s are nodes of t. */
  predicate NodesOf(t: Tree, s: seq<nat>) {
    forall i :: 0 <= i < |s| ==> s[i] < |t|
  }

  /** The position in s of the first node of greatest height. */
  function FirstMaxIndex(t: Tree, s: seq<nat>): (j: nat)
    requires |s| > 0 && NodesOf(t, s)
    ensures j < |s|
    ensures forall i :: 0 <= i < |s| ==> t[s[i]].height <= t[s[j]].height
    ensures forall i :: 0 <= i < j ==> t[s[i]].height < t[s[j]].height
  {
    if |s| == 1 then 0
    else
      var j := FirstMaxIndex(t, s[..|s| - 1]);
      if t[s[|s| - 1]].height > t[s[j]].height then |s| - 1 else j
  }

  /** The two properties of FirstMaxIndex determine it. */
  lemma FirstMaxIndexUnique(t: Tree, s: seq<nat>, j: nat)
    requires |s| > 0 && NodesOf(t, s) && j < |s|
    requires forall i :: 0 <= i < |s| ==> t[s[i]].height <= t[s[j]].height
    requires forall i :: 0 <= i < j ==> t[s[i]].height < t[s[j]].height
    ensures j == FirstMaxIndex(t, s)
  {
  }

  /** The first node of greatest height in s. */
  function BestIn(t: Tree, s: seq<nat>): (r: nat)
    requires |s| > 0 && NodesOf(t, s)
    ensures r in s && r < |t|
    ensures forall x :: x in s ==> t[x].height <= t[r].height
  {
    s[FirstMaxIndex(t, s)]
  }

  /**
    Scanning a followed by b: the first highest node of b replaces that of a only when it is
    strictly higher.
  */
  lemma BestInAppend(t: Tree, a: seq<nat>, b: seq<nat>)
    requires |a| > 0 && |b| > 0 && NodesOf(t, a) && NodesOf(t, b)
    ensures NodesOf(t, a + b)
    ensures BestIn(t, a + b) == if t[BestIn(t, b)].height > t[BestIn(t, a)].height then BestIn(t, b) else BestIn(t, a)
  {
    var s := a + b;
    var ja, jb := FirstMaxIndex(t, a), FirstMaxIndex(t, b);
    assert forall i :: 0 <= i < |s| ==> s[i] == if i < |a| then a[i] else b[i - |a|];
    if t[b[jb]].height > t[a[ja]].height {
      FirstMaxIndexUnique(t, s, |a| + jb);
    } else {
      FirstMaxIndexUnique(t, s, ja);
    }
  }

  /** The node getMaxHeightNode(genesis) returns: the first highest node in depth-first order. */
  function BestNode(t: Tree): (r: nat)
    requires TreeShape(t)
    ensures r in Preorder(t, 0) && r < |t|
    ensures forall x :: x in Preorder(t, 0) ==> t[x].height <= t[r].height
  {
    var s := Preorder(t, 0);
    var j := FirstMaxIndex(t, s);
    assert forall x :: x in s ==> exists i :: 0 <= i < |s| && s[i] == x;
    s[j]
  }

  // ---------------------------------------------------------------------------------------
  // Every node is reachable from the genesis node

  /** A node in the subtrees of head's first m children is in one of those subtrees. */
  lemma {:induction false} DescendantsHas(t: Tree, head: nat, m: nat, x: nat)
    requires TreeShape(t) && head < |t| && m <= |t[head].children|
    requires x in Descendants(t, head, m)
    ensures exists k :: 0 <= k < m && x in Preorder(t, t[head].children[k])
    decreases m
  {
    if x !in Preorder(t, t[head].children[m - 1]) {
      DescendantsHas(t, head, m - 1, x);
    }
  }

  /** The walk from a node takes in the whole walk from each of its children. */
  lemma ChildSubtreeIn(t: Tree, head: nat, k: nat, x: nat)
    requires TreeShape(t) && head < |t| && k < |t[head].children|
    requires x in Preorder(t, t[head].children[k])
    ensures x in Preorder(t, head)
  {
    var n := |t[head].children|;
    DescendantsPrefix(t, head, k + 1, n);
    var d := Descendants(t, head, k + 1);
    assert x in d;
    var i :| 0 <= i < |d| && d[i] == x;
    assert Descendants(t, head, n)[i] == x;
  }

  /** The walk from head takes in the whole walk from every node it meets. */
  lemma {:induction false} SubtreeClosed(t: Tree, head: nat, p: nat, x: nat)
    requires TreeShape(t) && head < |t| && p < |t|
    requires p in Preorder(t, head) && x in Preorder(t, p)
    ensures x in Preorder(t, head)
    decreases |t| - head
  {
    if p != head {
      DescendantsHas(t, head, |t[head].children|, p);
      var k :| 0 <= k < |t[head].children| && p in Preorder(t, t[head].children[k]);
      SubtreeClosed(t, t[head].children[k], p, x);
      ChildSubtreeIn(t, head, k, x);
    }
  }

  /** Every node of the arena is met by the depth-first walk from the genesis node. */
  lemma {:induction false} AllReachable(t: Tree, i: nat)
    requires TreeShape(t) && i < |t|
    ensures i in Preorder(t, 0)
    decreases i
  {
    if i > 0 {
      assert ParentLink(t, i);
      var p := t[i].parent.value;
      AllReachable(t, p);
      var k :| 0 <= k < |t[p].children| && t[p].children[k] == i;
      ChildSubtreeIn(t, p, k, i);
      SubtreeClosed(t, 0, p, i);
    }
  }

  /** The node getMaxHeightNode(genesis) returns is at least as high as every node of the arena. */
  lemma BestNodeHighest(t: Tree)
    requires TreeShape(t)
    ensures forall i :: 0 <= i < |t| ==> t[i].height <= t[BestNode(t)].height
  {
    forall i | 0 <= i < |t|
      ensures t[i].height <= t[BestNode(t)].height
    {
      AllReachable(t, i);
    }
  }

  /** A parent too far below the highest node to receive a child. */
  predicate TooOld(t: Tree, p: nat)
    requires TreeShape(t) && p < |t|
  {
    t[p].height < t[BestNode(t)].height - CUT_OFF_AGE
  }

  /**
    A block on top of the genesis node is refused exactly once the highest node is more than
    CUT_OFF_AGE levels above the genesis node.
  */
  lemma GenesisChildCutOff(t: Tree)
    requires TreeShape(t)
    ensures TooOld(t, 0) <==> t[BestNode(t)].height > CUT_OFF_AGE
  {
  }

  // ---------------------------------------------------------------------------------------
  // Search by hash

  /** The first node of s whose block has hash h, if any. */
  function FindIn(t: Tree, s: seq<nat>, h: Hash): Option<nat>
    requires NodesOf(t, s)
  {
    if s == [] then None
    else if t[s[0]].block.hash == h then Some(s[0])
    else FindIn(t, s[1..], h)
  }

  /**
    The search finds nothing exactly when no node of s has the hash; otherwise it finds a node
    of s with the hash, and no earlier node of s has it.
  */
  lemma {:induction false} FindInSpec(t: Tree, s: seq<nat>, h: Hash)
    requires NodesOf(t, s)
    ensures FindIn(t, s, h).None? <==> forall i :: 0 <= i < |s| ==> t[s[i]].block.hash != h
    ensures FindIn(t, s, h).None? <==> forall x :: x in s ==> t[x].block.hash != h
    ensures FindIn(t, s, h).Some? ==>
      var x := FindIn(t, s, h).value;
      x in s && x < |t| && t[x].block.hash == h &&
      exists j :: 0 <= j < |s| && s[j] == x && forall i :: 0 <= i < j ==> t[s[i]].block.hash != h
  {
    if s != [] && t[s[0]].block.hash != h {
      FindInSpec(t, s[1..], h);
      if FindIn(t, s, h).Some? {
        var j :| 0 <= j < |s[1..]| && s[1..][j] == FindIn(t, s, h).value
          && forall i :: 0 <= i < j ==> t[s[1..][i]].block.hash != h;
        assert s[j + 1] == FindIn(t, s, h).value;
      } else {
        assert forall i :: 1 <= i < |s| ==> s[i] == s[1..][i - 1];
      }
    } else if s != [] {
      assert s[0] == FindIn(t, s, h).value;
    }
  }

  /** Searching a followed by b finds in b only when a holds no match. */
  lemma {:induction false} FindInAppend(t: Tree, a: seq<nat>, b: seq<nat>, h: Hash)
    requires NodesOf(t, a) && NodesOf(t, b)
    ensures NodesOf(t, a + b)
    ensures FindIn(t, a + b, h) == if FindIn(t, a, h).Some? then FindIn(t, a, h) else FindIn(t, b, h)
  {
    if a == [] {
      assert a + b == b;
    } else {
      assert (a + b)[1..] == a[1..] + b;
      FindInAppend(t, a[1..], b, h);
    }
  }

  /** The walk starts with the head alone and ends with the whole subtree. */
  lemma VisitedEnds(t: Tree, head: nat)
    requires TreeShape(t) && head < |t|
    ensures Visited(t, head, 0) == [head] && BestIn(t, [head]) == head
    ensures Visited(t, head, |t[head].children|) == Preorder(t, head)
  {
  }

  lemma VisitedStep(t: Tree, head: nat, k: nat)
    requires TreeShape(t) && head < |t| && k < |t[head].children|
    ensures Visited(t, head, k + 1) == Visited(t, head, k) + Preorder(t, t[head].children[k])
  {
  }

  lemma VisitedPrefix(t: Tree, head: nat, k: nat)
    requires TreeShape(t) && head < |t| && k <= |t[head].children|
    ensures |Visited(t, head, k)| <= |Preorder(t, head)|
    ensures Preorder(t, head) == Visited(t, head, k) + Preorder(t, head)[|Visited(t, head, k)|..]
  {
    DescendantsPrefix(t, head, k, |t[head].children|);
  }

  /**
    One step of the walk for the highest node: the candidate from the next child's subtree
    replaces the best so far when strictly higher; the block-number tie-break can never
    fire, because equal heights mean equal block numbers.
  */
  lemma BestStep(t: Tree, head: nat, k: nat, best: nat, candidate: nat)
    requires TreeShape(t) && head < |t| && k < |t[head].children|
    requires best == BestIn(t, Visited(t, head, k))
    requires candidate == BestIn(t, Preorder(t, t[head].children[k]))
    ensures best < |t| && candidate < |t|
    ensures BestIn(t, Visited(t, head, k + 1)) ==
      if t[candidate].height > t[best].height then candidate
      else if t[candidate].height == t[best].height && t[candidate].blockNumber < t[best].blockNumber then candidate
      else best
  {
    VisitedStep(t, head, k);
    BestInAppend(t, Visited(t, head, k), Preorder(t, t[head].children[k]));
    BlockNumberIsHeight(t, candidate);
    BlockNumberIsHeight(t, best);
  }

  /** A walk that has found nothing so far finds in the next child's subtree what a search there finds. */
  lemma FindStep(t: Tree, head: nat, k: nat, h: Hash)
    requires TreeShape(t) && head < |t| && k < |t[head].children|
    requires FindIn(t, Visited(t, head, k), h).None?
    ensures FindIn(t, Visited(t, head, k + 1), h) == FindIn(t, Preorder(t, t[head].children[k]), h)
  {
    VisitedStep(t, head, k);
    FindInAppend(t, Visited(t, head, k), Preorder(t, t[head].children[k]), h);
  }

  /** What the walk has found after k children is what a search of the whole subtree finds. */
  lemma FindFound(t: Tree, head: nat, k: nat, h: Hash)
    requires TreeShape(t) && head < |t| && k <= |t[head].children|
    requires FindIn(t, Visited(t, head, k), h).Some?
    ensures FindIn(t, Preorder(t, head), h) == FindIn(t, Visited(t, head, k), h)
  {
    var upTo := Visited(t, head, k);
    var whole := Preorder(t, head);
    VisitedPrefix(t, head, k);
    FindInAppend(t, upTo, whole[|upTo|..], h);
  }

  /** A search whose head matches finds the head. */
  lemma FindAtHead(t: Tree, head: nat, h: Hash)
    requires TreeShape(t) && head < |t| && t[head].block.hash == h
    ensures FindIn(t, Preorder(t, head), h) == Some(head)
  {
    FindInAppend(t, [head], Descendants(t, head, |t[head].children|), h);
  }

  // ---------------------------------------------------------------------------------------
  // The block chain

  /** The pool the constructor gives the genesis node: the coinbase batch, then the genesis transactions. */
  function GenesisPool(crypto: Crypto, genesisBlock: Block): Pool {
    Handle(crypto, Handle(crypto, map[], [genesisBlock.coinbase]).pool, genesisBlock.txs).pool
  }

  /**
    The genesis coinbase, handled as a one-transaction batch on an empty pool, is credited
    only when it has no inputs and pays nothing: any positive output fails rule (5), and any
    input fails rule (1).
  */
  lemma GenesisCoinbaseCredit(crypto: Crypto, cb: Transaction)
    ensures Handle(crypto, map[], [cb]).pool ==
      if cb.inputs == [] && forall i :: 0 <= i < |cb.outputs| ==> cb.outputs[i].value == 0
      then ApplyTx(map[], cb) else map[]
  {
    var none: seq<Transaction> := [];
    assert [cb][..0] == none;
    var o := FirstPass(crypto, map[], [cb]);
    assert FirstPass(crypto, map[], none) == Outcome(map[], [], []);
    assert o == if ValidTx(crypto, map[], cb) then Outcome(ApplyTx(map[], cb), [cb], []) else Outcome(map[], [], [cb]);
    assert Handle(crypto, map[], [cb]) == o;
    if cb.inputs == [] {
      ZeroInputValidIffZeroOutputs(crypto, map[], cb);
    } else {
      var empty: Pool := map[];
      assert Claimed(cb.inputs[0]) !in empty;
      assert !InputsInPool(empty, cb);
    }
  }

  /** What crediting a coinbase would do: its outputs become spendable, nothing else changes. */
  function CreditCoinbase(pool: Pool, cb: Transaction): (r: Pool)
    requires forall i :: 0 <= i < |cb.outputs| ==> UTXO(cb.hash, i) !in pool
    ensures forall i :: 0 <= i < |cb.outputs| ==> UTXO(cb.hash, i) in r && r[UTXO(cb.hash, i)] == cb.outputs[i]
    ensures forall u :: u in pool ==> u in r && r[u] == pool[u]
    ensures forall u :: u in r ==> u in pool || (u.txHash == cb.hash && 0 <= u.index < |cb.outputs|)
  {
    CreatedKeys(cb.hash, cb.outputs);
    pool + Created(cb.hash, cb.outputs)
  }

  class BlockChain {
    const crypto: Crypto
    /** The arena; nodes[0] is the genesis node. */
    var nodes: Tree
    /** The handler that built the genesis pool, kept by the chain. */
    var txHandler: TxHandler

    ghost predicate Valid()
      reads this, txHandler
    {
      TreeShape(nodes) && txHandler.ledger == nodes[0].utxos
    }

    /**
      A chain holding only the genesis node: height and block number 0, and the pool a
      handler on an empty pool leaves after the coinbase batch and the genesis transactions.
    */
    constructor (crypto: Crypto, genesisBlock: Block)
      ensures Valid() && fresh(txHandler) && this.crypto == crypto
      ensures nodes == [BlockNode(genesisBlock, None, [], GenesisPool(crypto, genesisBlock), 0, 0)]
    {
      var handler := new TxHandler(crypto, map[]);
      var coinbaseAccepted := handler.HandleTxs([genesisBlock.coinbase]);
      var txsAccepted := handler.HandleTxs(genesisBlock.txs);
      this.crypto := crypto;
      txHandler := handler;
      nodes := [MakeNode([], genesisBlock, None, handler.ledger)];
    }

    /**
      The first node of greatest height in head's subtree, in depth-first order. The arena
      stands for the linked node objects the search walks.
    */
    static method MaxHeightNode(t: Tree, head: nat) returns (best: nat)
      requires TreeShape(t) && head < |t|
      ensures best == BestIn(t, Preorder(t, head))
      ensures best in Preorder(t, head)
      ensures forall x :: x in Preorder(t, head) ==> t[x].height <= t[best].height
      decreases |t| - head
    {
      best := head;
      var children := t[head].children;
      VisitedEnds(t, head);
      if children != [] {
        for k := 0 to |children|
          invariant best == BestIn(t, Visited(t, head, k))
        {
          var candidate := MaxHeightNode(t, children[k]);
          BestStep(t, head, k, best, candidate);
          var c, b := t[candidate], t[best];
          if c.height > b.height {
            best := candidate;
          } else if c.height == b.height {
            if c.blockNumber < b.blockNumber {
              best := candidate;
            }
          }
        }
      }
    }

    /** The first node of head's subtree, in depth-first order, whose block has the given hash. */
    static method FindBlock(t: Tree, head: nat, hash: Hash) returns (found: Option<nat>)
      requires TreeShape(t) && head < |t|
      ensures found == FindIn(t, Preorder(t, head), hash)
      ensures found.None? <==> forall x :: x in Preorder(t, head) ==> t[x].block.hash != hash
      ensures found.Some? ==> found.value in Preorder(t, head) && t[found.value].block.hash == hash
      decreases |t| - head
    {
      found := None;
      if hash == t[head].block.hash {
        found := Some(head);
        FindAtHead(t, head, hash);
      } else if t[head].children != [] {
        var children := t[head].children;
        var k := 0;
        while k < |children|
          invariant 0 <= k <= |children|
          invariant found.None? && FindIn(t, Visited(t, head, k), hash).None?
        {
          found := FindBlock(t, children[k], hash);
          FindStep(t, head, k, hash);
          if found.Some? {
            FindFound(t, head, k + 1, hash);
            break;
          }
          k := k + 1;
        }
      } else {
        assert Visited(t, head, 0) == [head];
      }
      FindInSpec(t, Preorder(t, head), hash);
    }

    /** The block of the highest node (the first one in depth-first order). */
    method MaxHeightBlock() returns (b: Block)
      requires Valid()
      ensures b == nodes[BestNode(nodes)].block
    {
      var best := MaxHeightNode(nodes, 0);
      b := nodes[best].block;
    }

    /** The pool the source hands out for mining on the highest node: always the genesis pool. */
    function MaxHeightUTXOPool(): (p: Pool)
      reads this, txHandler
      requires Valid()
      ensures p == nodes[0].utxos
    {
      txHandler.ledger
    }

    /** The pool of the highest node, which is what mining on it needs. */
    method BestUTXOPool() returns (p: Pool)
      requires Valid()
      ensures p == nodes[BestNode(nodes)].utxos
    {
      var best := MaxHeightNode(nodes, 0);
      p := nodes[best].utxos;
    }

    /**
      Adds a block under the node whose hash is its parent hash. Refused, with no change, when
      there is no parent hash, no such node, the parent is more than CUT_OFF_AGE below the
      highest node, or the handler, started on a copy of the parent's pool, does not accept
      every transaction. Otherwise exactly one node joins, as the parent's last child, holding
      the handler's final pool; the coinbase is not credited.
    */
    method AddBlock(block: Block) returns (added: bool)
      requires Valid()
      modifies this
      ensures Valid() && txHandler == old(txHandler)
      ensures !added ==> nodes == old(nodes)
      ensures block.prevBlockHash.None? ==> !added
      ensures block.prevBlockHash.Some? ==>
        var parent := FindIn(old(nodes), Preorder(old(nodes), 0), block.prevBlockHash.value);
        && (parent.None? ==> !added)
        && (parent.Some? ==>
              var p := parent.value;
              p < |old(nodes)| &&
              var outcome := Handle(crypto, old(nodes)[p].utxos, block.txs);
              && (added <==> !TooOld(old(nodes), p) && |outcome.accepted| == |block.txs|)
              && (added ==> nodes == AttachChild(old(nodes), p, block, outcome.pool)))
    {
      if block.prevBlockHash.None? {
        return false;
      }
      var parent := FindBlock(nodes, 0, block.prevBlockHash.value);
      if parent.None? {
        return false;
      }
      var p := parent.value;
      var best := MaxHeightNode(nodes, 0);
      if nodes[p].height < nodes[best].height - CUT_OFF_AGE {
        return false;
      }
      var handler := new TxHandler(crypto, nodes[p].utxos);
      var candidates := block.txs;
      var accepted := handler.HandleTxs(candidates);
      if |accepted| != |candidates| {
        return false;
      }
      nodes := AttachChild(nodes, p, block, handler.ledger);
      return true;
    }
  }

  // ---------------------------------------------------------------------------------------
  // Which of several equally high nodes is chosen

  /** The oldest (lowest-index, so earliest-created) node of greatest height among nodes 0 .. n-1. */
  function OldestTallestIn(t: Tree, n: nat): (r: nat)
    requires 0 < n <= |t|
    ensures r < n
    ensures forall i :: 0 <= i < n ==> t[i].height <= t[r].height
    ensures forall i :: 0 <= i < r ==> t[i].height < t[r].height
  {
    if n == 1 then 0
    else
      var r := OldestTallestIn(t, n - 1);
      if t[n - 1].height > t[r].height then n - 1 else r
  }

  /** The oldest node of greatest height: what the tie-break on block numbers was meant to pick. */
  function OldestTallest(t: Tree): (r: nat)
    requires TreeShape(t)
    ensures r < |t|
    ensures forall i :: 0 <= i < |t| ==> t[i].height <= t[r].height
    ensures forall i :: 0 <= i < r ==> t[i].height < t[r].height
  {
    OldestTallestIn(t, |t|)
  }

  function SampleBlock(id: bv8, parent: Option<Hash>): Block {
    Block([id], parent, Transaction([id, id], [], []), [])
  }

  lemma PreorderLeaf(t: Tree, x: nat)
    requires TreeShape(t) && x < |t| && t[x].children == []
    ensures Preorder(t, x) == [x]
  {
  }

  lemma PreorderOneChild(t: Tree, x: nat)
    requires TreeShape(t) && x < |t| && |t[x].children| == 1
    ensures Preorder(t, x) == [x] + Preorder(t, t[x].children[0])
  {
    VisitedEnds(t, x);
    VisitedStep(t, x, 0);
  }

  lemma PreorderTwoChildren(t: Tree, x: nat)
    requires TreeShape(t) && x < |t| && |t[x].children| == 2
    ensures Preorder(t, x) == [x] + Preorder(t, t[x].children[0]) + Preorder(t, t[x].children[1])
  {
    VisitedEnds(t, x);
    VisitedStep(t, x, 0);
    VisitedStep(t, x, 1);
  }

  /** The depth-first order of the five-node tree below, from its children lists alone. */
  lemma SamplePreorder(t: Tree)
    requires TreeShape(t) && |t| == 5
    requires t[0].children == [1, 2] && t[1].children == [4] && t[2].children == [3]
    requires t[3].children == [] && t[4].children == []
    ensures Preorder(t, 0) == [0, 1, 4, 2, 3]
  {
    PreorderLeaf(t, 3);
    PreorderLeaf(t, 4);
    PreorderOneChild(t, 1);
    PreorderOneChild(t, 2);
    PreorderTwoChildren(t, 0);
  }

  /** In that tree, with B1 (node 3) and A1 (node 4) the only nodes at height 2. */
  lemma SampleChoices(t: Tree)
    requires TreeShape(t) && |t| == 5
    requires t[0].children == [1, 2] && t[1].children == [4] && t[2].children == [3]
    requires t[3].children == [] && t[4].children == []
    requires t[1].height == 1 && t[2].height == 1 && t[3].height == 2 && t[4].height == 2
    ensures BestNode(t) == 4 && OldestTallest(t) == 3
  {
    SamplePreorder(t);
    var s := Preorder(t, 0);
    FirstMaxIndexUnique(t, s, 2);
    assert OldestTallestIn(t, 4) == 3;
  }

  /**
    Genesis G gets children A then B; B gets child B1; then A gets child A1. B1 and A1 are
    both at height 2 and B1 is older, but the depth-first search meets A1 first and the
    block-number tie-break never replaces it.
  */
  lemma TieBreakPicksDepthFirstNotOldest()
    ensures var t := [
        BlockNode(SampleBlock(0, None), None, [1, 2], map[], 0, 0),
        BlockNode(SampleBlock(1, Some([0])), Some(0), [4], map[], 1, 1),
        BlockNode(SampleBlock(2, Some([0])), Some(0), [3], map[], 1, 1),
        BlockNode(SampleBlock(3, Some([2])), Some(2), [], map[], 2, 2),
        BlockNode(SampleBlock(4, Some([1])), Some(1), [], map[], 2, 2)];
      TreeShape(t) && BestNode(t) == 4 && OldestTallest(t) == 3
  {
    var t := [
        BlockNode(SampleBlock(0, None), None, [1, 2], map[], 0, 0),
        BlockNode(SampleBlock(1, Some([0])), Some(0), [4], map[], 1, 1),
        BlockNode(SampleBlock(2, Some([0])), Some(0), [3], map[], 1, 1),
        BlockNode(SampleBlock(3, Some([2])), Some(2), [], map[], 2, 2),
        BlockNode(SampleBlock(4, Some([1])), Some(1), [], map[], 2, 2)];
    assert ParentLink(t, 1) && ParentLink(t, 2) && ParentLink(t, 3) && ParentLink(t, 4);
    assert TreeShape(t);
    SampleChoices(t);
  }

  /** In a tree of a root and one child, the child is the highest node. */
  lemma SampleTwoChoice(t: Tree)
    requires TreeShape(t) && |t| == 2 && t[0].children == [1] && t[1].children == []
    ensures BestNode(t) == 1
  {
    PreorderLeaf(t, 1);
    PreorderOneChild(t, 0);
    assert ParentLink(t, 1);
    FirstMaxIndexUnique(t, [0, 1], 1);
  }

  /**
    A genesis node with one child that spent nothing but created one output: the child is the
    highest node and its pool differs from the genesis pool, which is the one handed out.
  */
  lemma MaxHeightPoolIsStale()
    ensures var u := UTXO([1, 1], 0);
      var t := [
        BlockNode(SampleBlock(0, None), None, [1], map[], 0, 0),
        BlockNode(SampleBlock(1, Some([0])), Some(0), [], map[u := Output(0, [])], 1, 1)];
      TreeShape(t) && BestNode(t) == 1 && t[BestNode(t)].utxos != t[0].utxos
  {
    var u := UTXO([1, 1], 0);
    var t := [
        BlockNode(SampleBlock(0, None), None, [1], map[], 0, 0),
        BlockNode(SampleBlock(1, Some([0])), Some(0), [], map[u := Output(0, [])], 1, 1)];
    assert ParentLink(t, 1);
    assert TreeShape(t);
    SampleTwoChoice(t);
    assert u in t[1].utxos;
  }
}
