/**
  Unspent transaction outputs and transactions, as the transaction handler sees them.
  Hashes, addresses and signatures are opaque byte strings compared by value; output
  values are exact integers.
*/
module Utxo {

  type Bytes = seq<bv8>
  type Hash = Bytes
  type Address = Bytes
  type Signature = Bytes

  /** An output: a value paid to the owner of a public key. */
  datatype Output = Output(value: int, address: Address)

  /** An input: the output it claims (transaction hash and index) and the owner's signature. */
  datatype Input = Input(prevTxHash: Hash, outputIndex: int, signature: Signature)

  datatype Transaction = Transaction(hash: Hash, inputs: seq<Input>, outputs: seq<Output>)

  /** A reference to one output of one transaction; equality is structural. */
  datatype UTXO = UTXO(txHash: Hash, index: int)

  /** A UTXO pool: every unspent output, keyed by its reference. */
  type Pool = map<UTXO, Output>

  /** The UTXO an input claims. */
  function Claimed(input: Input): UTXO {
    UTXO(input.prevTxHash, input.outputIndex)
  }

  /** The UTXOs claimed by a sequence of inputs. */
  function ClaimedBy(inputs: seq<Input>): set<UTXO> {
    set i | 0 <= i < |inputs| :: Claimed(inputs[i])
  }

  /** The UTXOs a transaction with hash `h` creates: output i is keyed by (h, i). */
  function Created(h: Hash, outputs: seq<Output>): Pool {
    if outputs == [] then map[]
    else Created(h, outputs[..|outputs| - 1])[UTXO(h, |outputs| - 1) := outputs[|outputs| - 1]]
  }

  /** The created UTXOs are exactly (h, 0) .. (h, |outputs| - 1), each holding its output. */
  lemma {:induction false} CreatedKeys(h: Hash, outputs: seq<Output>)
    ensures forall u :: u in Created(h, outputs) <==> u.txHash == h && 0 <= u.index < |outputs|
    ensures forall i :: 0 <= i < |outputs| ==> Created(h, outputs)[UTXO(h, i)] == outputs[i]
  {
    if outputs != [] {
      var init := outputs[..|outputs| - 1];
      CreatedKeys(h, init);
      assert forall i :: 0 <= i < |init| ==> init[i] == outputs[i];
    }
  }

  /**
    The pool after applying a transaction: the claimed UTXOs are removed first, then every
    output is added under (tx.hash, i).
  */
  function ApplyTx(pool: Pool, tx: Transaction): Pool {
    (pool - ClaimedBy(tx.inputs)) + Created(tx.hash, tx.outputs)
  }

  /**
    What applying a transaction does to each UTXO: output i of the transaction is present
    under (tx.hash, i); every other claimed UTXO is gone (an output key that an input also
    claims is present afterwards, since removals come first); every other entry is unchanged.
  */
  lemma ApplyTxEffect(pool: Pool, tx: Transaction)
    ensures var r := ApplyTx(pool, tx);
      && (forall i :: 0 <= i < |tx.outputs| ==> UTXO(tx.hash, i) in r && r[UTXO(tx.hash, i)] == tx.outputs[i])
      && (forall i :: 0 <= i < |tx.inputs| && !(tx.inputs[i].prevTxHash == tx.hash && 0 <= tx.inputs[i].outputIndex < |tx.outputs|)
            ==> Claimed(tx.inputs[i]) !in r)
      && (forall u :: u !in ClaimedBy(tx.inputs) && !(u.txHash == tx.hash && 0 <= u.index < |tx.outputs|)
            ==> (u in r <==> u in pool) && (u in pool ==> r[u] == pool[u]))
      && (forall u :: u in r ==> u in pool || (u.txHash == tx.hash && 0 <= u.index < |tx.outputs|))
  {
    CreatedKeys(tx.hash, tx.outputs);
  }
}
