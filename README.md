# A UTXO block chain: transaction handler and block tree, in Dafny

This project models the two cooperating parts of a small UTXO block chain.

- **The transaction handler** (`TxHandler`) keeps a private pool of unspent transaction
  outputs (UTXOs). `isValidTx` checks five rules, in this order:
  1. every claimed output is in the pool;
  2. every input's signature verifies against the claimed output's address;
  3. no UTXO is claimed twice;
  4. no output value is negative;
  5. the inputs' total value covers the outputs' total.

  `updateLedger` removes the spent UTXOs and then adds the new ones, in place. `handleTxs`
  makes one greedy pass over a batch. Unless that pass accepted everything or nothing, it then
  re-scans the rejected list until a pass no longer shortens it.
- **The block tree** (`BlockChain` and its `BlockNode`s). Every node holds:
  - its block;
  - its parent and its ordered list of children;
  - its own UTXO pool;
  - a height and a block number, both one more than the parent's.

  `getMaxHeightNode` and `findBlock` are recursive depth-first searches. `addBlock` refuses a
  block in four cases: it has no parent hash, the parent is unknown, the parent is more than
  `CUT_OFF_AGE` levels below the highest node, or the handler does not accept every
  transaction. Otherwise it appends exactly one child to the parent.

Files:

- `option.dfy`, module `Wrappers`: `Option`, which stands for a Java reference that may be null.
- `utxo.dfy`, module `Utxo`: outputs, inputs, transactions and UTXOs, the pool as a map, and
  `ApplyTx`, the effect of one transaction on a pool.
- `tx_handler.dfy`, module `TxHandling`:
  - the five rules as predicates;
  - the batch as specification functions (`FirstPass`, `RetryPass`, `Retry`, `Handle`) and
    what they guarantee;
  - class `TxHandler`, whose `ledger` field the methods update. Each method is proved equal to
    its specification function.
- `block_chain.dfy`, module `Chain`:
  - the tree as an arena (a sequence of nodes that refer to each other by index);
  - the depth-first order `Preorder`, against which both searches are proved;
  - class `BlockChain`;
  - three discrepancies between the code and its documented intent, each with a counterexample
    and a corrected definition.

The arena: a child always has a larger index than its parent, so index order is creation
order. `TreeShape` is the arena's invariant: one root, every other node linked to an earlier
parent and listed among that parent's children, and counters one more than the parent's.
`AttachChild` is proved to preserve it.

Cryptography is a parameter: the `Crypto` value carries the signed-data function and the
signature check, and nothing is assumed about either. `getUTXOPool()` is called by
`BlockChain.java` but is absent from `TxHandler.java`; it is modelled as reading the
handler's `ledger` field.

## Model

| member | source | states |
|---|---|---|
| Utxo.CreatedKeys | BlockChain/src/TxHandler.java:148-154 | the outputs a transaction creates are keyed exactly (hash, 0) … (hash, n-1), and key (hash, i) holds output i |
| Utxo.ApplyTxEffect | BlockChain/src/TxHandler.java:139-155 | after applying a transaction: output i is present under (tx.hash, i); every other claimed UTXO is absent; every unrelated entry is unchanged; nothing else appears |
| TxHandling.OutputSumZero | BlockChain/src/TxHandler.java:64-70 | non-negative outputs have a non-negative total, which is zero exactly when every output is zero |
| TxHandling.ZeroInputValidIffZeroOutputs | BlockChain/src/TxHandler.java:39-75 | a transaction with no inputs is valid exactly when all its outputs are zero, because its input sum is 0 and rule (5) then admits no positive output |
| TxHandling.RemoveFirst | BlockChain/src/TxHandler.java:123 | removing a present element drops exactly one occurrence (length minus one, multiset minus that element); removing an absent one changes nothing |
| TxHandling.RemoveFirstPosition | BlockChain/src/TxHandler.java:123 | removing a present element takes out its first occurrence: no earlier element equals it, and the result is the elements before it followed by those after it, in order |
| TxHandling.RetryPass | BlockChain/src/TxHandler.java:115-125 | a retry pass never lengthens the pending list |
| TxHandling.FirstPassReplays | BlockChain/src/TxHandler.java:89-103 | the first pass's accepted list replays from the starting pool to its pool: each accepted transaction was valid when applied, in that order |
| TxHandling.FirstPassKeepsBatch | BlockChain/src/TxHandler.java:89-103 | the first pass splits the candidates: accepted plus rejected is exactly the batch, as a multiset |
| TxHandling.FirstPassNoneAccepted | BlockChain/src/TxHandler.java:106 | if the first pass accepts nothing, the pool is untouched and every candidate is invalid against it, so the early return is a fixpoint |
| TxHandling.RetryPassReplays | BlockChain/src/TxHandler.java:115-125 | a retry pass keeps the accepted list a valid replay from the starting pool to the current pool |
| TxHandling.RetryPassKeepsBatch | BlockChain/src/TxHandler.java:115-125 | a retry pass moves transactions from pending to accepted without losing or duplicating any |
| TxHandling.RetryPassStable | BlockChain/src/TxHandler.java:109-128 | a pass that does not shorten the pending list changes nothing, and found every transaction it looked at invalid |
| TxHandling.RetryInvariant | BlockChain/src/TxHandler.java:108-128 | the retry loop ends with a valid replay, the same multiset of transactions, and no pending transaction valid against the final pool |
| TxHandling.HandleCorrect | BlockChain/src/TxHandler.java:83-131 | for the whole batch: the accepted transactions replay from the starting pool to the final pool in acceptance order; accepted plus left over is exactly the batch; nothing left over is valid against the final pool |
| TxHandling.TxHandler.constructor | BlockChain/src/TxHandler.java:15-17 | the handler's ledger starts as the caller's pool; being a value, the caller's pool is never changed by later updates |
| TxHandling.TxHandler.IsValidTx | BlockChain/src/TxHandler.java:29-76 | the result is true exactly when all five rules hold against the ledger (`ValidTx`); the method has no `modifies`, so it only reads the ledger |
| TxHandling.TxHandler.CheckInputs | BlockChain/src/TxHandler.java:39-62 | the input loop succeeds exactly when rules (1), (2) and (3) hold for every input, and then the running sum is the total value the inputs claim |
| TxHandling.TxHandler.CheckOutputs | BlockChain/src/TxHandler.java:64-70 | the output loop succeeds exactly when no output value is negative, and then the running sum is the total output value |
| TxHandling.TxHandler.FoundBefore | BlockChain/src/TxHandler.java:56-59 | the inner scan of rule (3) answers true exactly when the UTXO is among those recorded for earlier inputs |
| TxHandling.TxHandler.UpdateLedger | BlockChain/src/TxHandler.java:139-155 | the new ledger is the old one with the claimed UTXOs removed and then the outputs added (`ApplyTx`, whose effect `ApplyTxEffect` states) |
| TxHandling.TxHandler.HandleTxs | BlockChain/src/TxHandler.java:83-131 | the returned list and the new ledger are those of `Handle`; the returned list replays from the old ledger to the new one; it is a sub-multiset of the candidates; no rejected candidate is valid against the new ledger |
| Chain.BlockNumberIsHeight | BlockChain/src/BlockChain.java:32-40 | in every tree built by the constructor and `addBlock`, each node's block number equals its height |
| Chain.AttachChild | BlockChain/src/BlockChain.java:197-198 | appending a node keeps the tree shape; the new node is one level below its parent and holds the given block and pool; the parent gains exactly this child; no other node changes |
| Chain.FirstMaxIndex | BlockChain/src/BlockChain.java:143-146 | replacing only on a strictly greater height picks a position of maximum height before which every height is strictly smaller |
| Chain.BestIn | BlockChain/src/BlockChain.java:132-157 | the node chosen from a sequence is in it and at least as high as every node in it |
| Chain.BestInAppend | BlockChain/src/BlockChain.java:139-152 | scanning one sequence and then another: the second's best replaces the first's only when it is strictly higher |
| Chain.BestStep | BlockChain/src/BlockChain.java:143-151 | one iteration of the loop over children, including the block-number tie-break, computes the best of the walk so far; the tie-break never changes the choice |
| Chain.BestNode | BlockChain/src/BlockChain.java:117-121 | the node `getMaxHeightNode(genesis)` returns is met by the walk from the genesis node and is at least as high as every node that walk meets |
| Chain.AllReachable | BlockChain/src/BlockChain.java:184-198 | since every block is added as a child of a node already in the tree, every node of the arena is met by the depth-first walk from the genesis node |
| Chain.BestNodeHighest | BlockChain/src/BlockChain.java:117-121 | the node `getMaxHeightNode(genesis)` returns is at least as high as every node of the tree |
| Chain.GenesisChildCutOff | BlockChain/src/BlockChain.java:172-180 | a block on top of the genesis node is refused exactly when the highest node is more than `CUT_OFF_AGE` levels above it, as the doc comment's example says |
| Chain.FindInSpec | BlockChain/src/BlockChain.java:214-236 | the search finds nothing exactly when no node in the order has the hash; otherwise it finds a node with the hash, and no earlier node has it |
| Chain.FindInAppend | BlockChain/src/BlockChain.java:226-233 | searching one sequence and then another reaches the second only when the first has no match, which is the loop's `break` |
| Chain.GenesisCoinbaseCredit | BlockChain/src/BlockChain.java:107-110 | the genesis coinbase, handled as a one-transaction batch on an empty pool, is credited only if it has no inputs and every output is zero; otherwise the pool stays empty |
| Chain.BlockChain.constructor | BlockChain/src/BlockChain.java:103-115 | the chain holds only the genesis node: height and block number 0, no children, and the pool a fresh handler leaves after the coinbase batch and then the genesis transactions |
| Chain.BlockChain.MaxHeightNode | BlockChain/src/BlockChain.java:132-157 | the result is in head's subtree, at least as high as every node there, and is the first such node in depth-first, child-insertion order |
| Chain.BlockChain.FindBlock | BlockChain/src/BlockChain.java:214-236 | the result is absent exactly when no node of head's subtree has the hash; otherwise it is a node of the subtree with the hash, namely the first in depth-first order |
| Chain.BlockChain.MaxHeightBlock | BlockChain/src/BlockChain.java:118-121 | the block returned is that of the first highest node in depth-first order |
| Chain.BlockChain.MaxHeightUTXOPool | BlockChain/src/BlockChain.java:160-163 | as written, the pool handed out is always the genesis node's pool |
| Chain.BlockChain.AddBlock | BlockChain/src/BlockChain.java:184-201 | refused with the tree unchanged when there is no parent hash, no node with that hash, the parent is too old, or the handler accepts fewer transactions than the block holds; otherwise exactly one node joins, as the parent's last child, one level below it, holding the pool the handler computed from the parent's pool; the coinbase is not credited |
| Chain.OldestTallestIn | BlockChain/src/BlockChain.java:124-131 | among the first n nodes, the result is of maximum height and every older node is strictly lower |
| Chain.OldestTallest | BlockChain/src/BlockChain.java:124-131 | the oldest node of maximum height, which the doc comment promises |
| Chain.TieBreakPicksDepthFirstNotOldest | BlockChain/src/BlockChain.java:143-151 | in a five-node tree that satisfies the tree invariant (children added in the order A, B, B1, A1), the node chosen is A1, not the older B1 of equal height |
| Chain.BlockChain.BestUTXOPool | BlockChain/src/BlockChain.java:160-163 | the pool of the highest node, the one mining on top of it needs |
| Chain.MaxHeightPoolIsStale | BlockChain/src/BlockChain.java:160-163 | in a two-node tree, the highest node's pool differs from the genesis pool that is handed out |
| Chain.CreditCoinbase | BlockChain/src/BlockChain.java:107-110 | crediting a coinbase makes output i spendable under (hash, i) and changes no existing entry |

## Left out

- `TransactionPool`, `addTransaction` and `getTransactionPool` are left out. They pass straight through to a class that is not part of this model.
- The cryptography (`Crypto.verifySignature`, `getRawDataToSign`) is a parameter of unknown functions, and nothing is assumed about it. Hashes are byte strings compared by value, and `ByteArrayWrapper` is that comparison.
- Output values are exact integers. The `double` sums of `isValidTx`, and their rounding, are not modelled.
- TxHandling.TxHandler.CheckInputs, and so TxHandling.TxHandler.IsValidTx, compares UTXOs by equality in rule (3). The source compares `hashCode`s, so it also rejects two distinct UTXOs that happen to share a hash code. That collision is not modelled.
- TxHandling.RemoveFirst removes the first element equal by value. `ArrayList.remove` uses `Transaction.equals`; the model assumes that it compares transactions by content. Transaction.java is not part of this model. This affects only the order of the pending list, not its multiset.
- `UTXOPool`, `UTXO`, `Transaction` and `Block` are not part of this model beyond the fields used here. The pool is a map, a UTXO is a (hash, index) pair, and a block is its hash, parent hash, coinbase and transactions.
- The `BlockNode` constructors at lines 61-89 of `BlockChain.java` are never called and are not modelled. The constructor at lines 25-41 is never called either; its counters are those of `Chain.MakeNode`.
- Nodes are arena entries, not objects. `getMaxHeightNode` and `findBlock` read only the nodes, never the chain's fields, so they are static methods over the arena. The genesis node and the genesis handler share one pool object; the model keeps them equal through `BlockChain.Valid()`.
- There is no memory bound, pruning, hash index or locking. The comment at lines 4-6 of `BlockChain.java` asks for a memory bound, but the code does not implement one.

## Findings

| source | as written | input that shows it | evidently intended | confidence | as-written member | corrected member |
|---|---|---|---|---|---|---|
| BlockChain/src/BlockChain.java:143-151 | the tie-break compares block numbers, which always equal heights, so it never fires; the first highest node in depth-first order wins | genesis G gets children A then B, B gets child B1, then A gets child A1: A1 is returned although B1 is older | the oldest node of maximum height, as the doc comment at lines 124-131 says | not executed | Chain.TieBreakPicksDepthFirstNotOldest | Chain.OldestTallest |
| BlockChain/src/BlockChain.java:160-163 | returns the genesis handler's pool, whatever the highest node is | a genesis node with one child whose pool holds one more UTXO | the pool of the highest node, as the doc comment says | not executed | Chain.BlockChain.MaxHeightUTXOPool | Chain.BlockChain.BestUTXOPool |
| BlockChain/src/BlockChain.java:107-110 | the genesis coinbase goes through `handleTxs`; having no inputs, it is accepted only if it pays nothing, and `addBlock` never looks at a coinbase | a genesis block with no transactions besides a coinbase paying 25 to one address gets an empty genesis pool | the coinbase outputs become spendable | not executed | Chain.GenesisCoinbaseCredit | Chain.CreditCoinbase |

The chain operations keep the behaviour as written. The corrected members state the
intended behaviour and are proved beside them.
