/**
  The transaction handler: the five validity rules for one transaction, the greedy pass and
  the retry loop that accept a batch, and the class that keeps a private UTXO pool and
  updates it in place.
*/
module TxHandling {
  import opened Wrappers
  import opened Utxo

  /**
    The cryptographic primitives the handler calls but does not define: the bytes signed for
    input i of a transaction, and signature verification against a public key.
  */
  datatype Crypto = Crypto(
    rawDataToSign: (Transaction, nat) -> Bytes,
    verifySignature: (Address, Bytes, Signature) -> bool)

  // ---------------------------------------------------------------------------------------
  // The five rules

  /** Rule (1): every claimed output is in the pool. */
  predicate InputsInPool(pool: Pool, tx: Transaction) {
    forall i :: 0 <= i < |tx.inputs| ==> Claimed(tx.inputs[i]) in pool
  }

  /** Input i carries a signature, by the owner of the output it claims, over the data signed for input i. */
  predicate InputSigned(crypto: Crypto, pool: Pool, tx: Transaction, i: nat)
    requires i < |tx.inputs| && Claimed(tx.inputs[i]) in pool
  {
    crypto.verifySignature(pool[Claimed(tx.inputs[i])].address, crypto.rawDataToSign(tx, i), tx.inputs[i].signature)
  }

  /** Rule (2): every input is signed by the owner of the output it claims. */
  predicate SignaturesVerify(crypto: Crypto, pool: Pool, tx: Transaction)
    requires InputsInPool(pool, tx)
  {
    forall i :: 0 <= i < |tx.inputs| ==> InputSigned(crypto, pool, tx, i)
  }

  /** Rule (3): no UTXO is claimed by two inputs. */
  predicate NoDoubleClaim(tx: Transaction) {
    forall i, j :: 0 <= j < i < |tx.inputs| ==> Claimed(tx.inputs[i]) != Claimed(tx.inputs[j])
  }

  /** Rule (4): no output value is negative. */
  predicate OutputsNonNegative(tx: Transaction) {
    forall i :: 0 <= i < |tx.outputs| ==> tx.outputs[i].value >= 0
  }

  /** The value of the output an input claims; only asked of inputs whose output is in the pool. */
  function ClaimedValue(pool: Pool, input: Input): int {
    if Claimed(input) in pool then pool[Claimed(input)].value else 0
  }

  /** The total value of the outputs claimed by `inputs`, one term per input. */
  function InputSum(pool: Pool, inputs: seq<Input>): int {
    if inputs == [] then 0
    else InputSum(pool, inputs[..|inputs| - 1]) + ClaimedValue(pool, inputs[|inputs| - 1])
  }

  /** The total value of a sequence of outputs. */
  function OutputSum(outputs: seq<Output>): int {
    if outputs == [] then 0
    else OutputSum(outputs[..|outputs| - 1]) + outputs[|outputs| - 1].value
  }

  /** Rules (1) to (3) hold for the first n inputs. */
  predicate PassedUpTo(crypto: Crypto, pool: Pool, tx: Transaction, n: nat)
    requires n <= |tx.inputs|
  {
    && (forall k :: 0 <= k < n ==> Claimed(tx.inputs[k]) in pool)
    && (forall k :: 0 <= k < n ==> InputSigned(crypto, pool, tx, k))
    && (forall k, j :: 0 <= j < k < n ==> Claimed(tx.inputs[k]) != Claimed(tx.inputs[j]))
  }

  /** Rules (1) to (3) hold for the first i + 1 inputs when they hold for the first i and input i passes them. */
  lemma InputChecksStep(crypto: Crypto, pool: Pool, tx: Transaction, i: nat)
    requires i < |tx.inputs| && PassedUpTo(crypto, pool, tx, i)
    requires Claimed(tx.inputs[i]) in pool && InputSigned(crypto, pool, tx, i)
    requires forall j :: 0 <= j < i ==> Claimed(tx.inputs[i]) != Claimed(tx.inputs[j])
    ensures PassedUpTo(crypto, pool, tx, i + 1)
  {
  }

  /** Passing rules (1) to (3) for every input is rules (1) to (3). */
  lemma PassedAll(crypto: Crypto, pool: Pool, tx: Transaction)
    ensures PassedUpTo(crypto, pool, tx, |tx.inputs|) <==>
      InputsInPool(pool, tx) && SignaturesVerify(crypto, pool, tx) && NoDoubleClaim(tx)
  {
  }

  /** Summing one more input adds the value it claims. */
  lemma InputSumStep(pool: Pool, inputs: seq<Input>, i: nat)
    requires i < |inputs|
    ensures InputSum(pool, inputs[..i + 1]) == InputSum(pool, inputs[..i]) + ClaimedValue(pool, inputs[i])
  {
    assert inputs[..i + 1][..i] == inputs[..i];
  }

  /** Summing one more output adds its value. */
  lemma OutputSumStep(outputs: seq<Output>, i: nat)
    requires i < |outputs|
    ensures OutputSum(outputs[..i + 1]) == OutputSum(outputs[..i]) + outputs[i].value
  {
    assert outputs[..i + 1][..i] == outputs[..i];
  }

  /** A transaction is valid against a pool when all five rules hold; rule (5) is the sum check. */
  predicate ValidTx(crypto: Crypto, pool: Pool, tx: Transaction) {
    && InputsInPool(pool, tx)
    && SignaturesVerify(crypto, pool, tx)
    && NoDoubleClaim(tx)
    && OutputsNonNegative(tx)
    && InputSum(pool, tx.inputs) >= OutputSum(tx.outputs)
  }

  /** Outputs that are all non-negative sum to zero exactly when every one of them is zero. */
  lemma {:induction false} OutputSumZero(outputs: seq<Output>)
    requires forall i :: 0 <= i < |outputs| ==> outputs[i].value >= 0
    ensures OutputSum(outputs) >= 0
    ensures OutputSum(outputs) == 0 <==> forall i :: 0 <= i < |outputs| ==> outputs[i].value == 0
  {
    if outputs != [] {
      var init := outputs[..|outputs| - 1];
      assert forall i :: 0 <= i < |init| ==> init[i] == outputs[i];
      OutputSumZero(init);
    }
  }

  /**
    A transaction without inputs (a coinbase) is valid exactly when every output is zero:
    its input sum is 0, so rule (5) admits no positive output.
  */
  lemma ZeroInputValidIffZeroOutputs(crypto: Crypto, pool: Pool, tx: Transaction)
    requires tx.inputs == []
    ensures ValidTx(crypto, pool, tx) <==> forall i :: 0 <= i < |tx.outputs| ==> tx.outputs[i].value == 0
  {
    if OutputsNonNegative(tx) {
      OutputSumZero(tx.outputs);
    }
  }

  // ---------------------------------------------------------------------------------------
  // Replaying accepted transactions

  /**
    Applies `txs` to `pool` in order, each one checked against the pool left by the ones
    before it; None when one of them is not valid at its turn.
  */
  function Replay(crypto: Crypto, pool: Pool, txs: seq<Transaction>): Option<Pool> {
    if txs == [] then Some(pool)
    else
      match Replay(crypto, pool, txs[..|txs| - 1])
      case None => None
      case Some(p) =>
        var tx := txs[|txs| - 1];
        if ValidTx(crypto, p, tx) then Some(ApplyTx(p, tx)) else None
  }

  lemma ReplayStep(crypto: Crypto, pool: Pool, txs: seq<Transaction>, p: Pool, tx: Transaction)
    requires Replay(crypto, pool, txs) == Some(p) && ValidTx(crypto, p, tx)
    ensures Replay(crypto, pool, txs + [tx]) == Some(ApplyTx(p, tx))
  {
  }

  // ---------------------------------------------------------------------------------------
  // Batch processing, as functions

  /** The state of a batch: the handler's pool, the accepted list and the pending list. */
  datatype Outcome = Outcome(pool: Pool, accepted: seq<Transaction>, pending: seq<Transaction>)

  /** Removes the first element equal to `x`, as a list's remove-by-value does. */
  function RemoveFirst<T(==)>(s: seq<T>, x: T): (r: seq<T>)
    ensures x in s ==> |r| == |s| - 1 && multiset(r) == multiset(s) - multiset{x}
    ensures x !in s ==> r == s
  {
    if s == [] then []
    else
      assert s == [s[0]] + s[1..];
      if s[0] == x then s[1..] else [s[0]] + RemoveFirst(s[1..], x)
  }

  /** `r` is `s` with the element at position k taken out, k being the first position holding `x`. */
  predicate RemovedAt<T(==)>(s: seq<T>, x: T, r: seq<T>, k: int) {
    0 <= k < |s| && s[k] == x && x !in s[..k] && r == s[..k] + s[k + 1..]
  }

  /** Putting a different element in front shifts the removed position by one. */
  lemma RemovedAtCons<T>(a: T, s: seq<T>, x: T, r: seq<T>, k: int)
    requires a != x && RemovedAt(s, x, r, k)
    ensures RemovedAt([a] + s, x, [a] + r, k + 1)
  {
    var t := [a] + s;
    assert t[..k + 1] == [a] + s[..k];
    assert t[k + 2..] == s[k + 1..];
  }

  /** Removal takes out the first occurrence and keeps everything else in order. */
  lemma {:induction false} RemoveFirstPosition<T>(s: seq<T>, x: T)
    requires x in s
    ensures exists k :: RemovedAt(s, x, RemoveFirst(s, x), k)
  {
    if s[0] == x {
      assert s[..0] == [] && s[1..] == s[..0] + s[0 + 1..];
      assert RemovedAt(s, x, RemoveFirst(s, x), 0);
    } else {
      assert s == [s[0]] + s[1..];
      RemoveFirstPosition(s[1..], x);
      var k :| RemovedAt(s[1..], x, RemoveFirst(s[1..], x), k);
      RemovedAtCons(s[0], s[1..], x, RemoveFirst(s[1..], x), k);
    }
  }

  /** The first pass: every candidate in order, accepted and applied when valid at its turn. */
  function FirstPass(crypto: Crypto, pool: Pool, txs: seq<Transaction>): Outcome {
    if txs == [] then Outcome(pool, [], [])
    else
      var o := FirstPass(crypto, pool, txs[..|txs| - 1]);
      var tx := txs[|txs| - 1];
      if ValidTx(crypto, o.pool, tx) then Outcome(ApplyTx(o.pool, tx), o.accepted + [tx], o.pending)
      else Outcome(o.pool, o.accepted, o.pending + [tx])
  }

  /**
    One retry pass over the pending list from position i. An accepted transaction is
    removed from the list and the position still advances, so the element that moved into
    its place is not looked at in this pass.
  */
  function RetryPass(crypto: Crypto, o: Outcome, i: nat): (r: Outcome)
    ensures |r.pending| <= |o.pending|
    decreases |o.pending| + 1 - i
  {
    if i >= |o.pending| then o
    else
      var tx := o.pending[i];
      if ValidTx(crypto, o.pool, tx) then
        RetryPass(crypto, Outcome(ApplyTx(o.pool, tx), o.accepted + [tx], RemoveFirst(o.pending, tx)), i + 1)
      else RetryPass(crypto, o, i + 1)
  }

  /** Retry passes, repeated while a pass shortens the pending list. */
  function Retry(crypto: Crypto, o: Outcome): Outcome
    decreases |o.pending|
  {
    var r := RetryPass(crypto, o, 0);
    if |r.pending| < |o.pending| then Retry(crypto, r) else r
  }

  /** The whole batch: the first pass, then retries unless it accepted all or nothing. */
  function Handle(crypto: Crypto, pool: Pool, txs: seq<Transaction>): Outcome {
    var o := FirstPass(crypto, pool, txs);
    if |o.accepted| == |txs| || o.accepted == [] then o else Retry(crypto, o)
  }

  // ---------------------------------------------------------------------------------------
  // What a batch guarantees

  /** The accepted list replays from the starting pool to the current pool. */
  ghost predicate Replays(crypto: Crypto, pool: Pool, o: Outcome) {
    Replay(crypto, pool, o.accepted) == Some(o.pool)
  }

  lemma {:induction false} FirstPassReplays(crypto: Crypto, pool: Pool, txs: seq<Transaction>)
    ensures Replays(crypto, pool, FirstPass(crypto, pool, txs))
  {
    if txs != [] {
      var init := txs[..|txs| - 1];
      var tx := txs[|txs| - 1];
      FirstPassReplays(crypto, pool, init);
      var o := FirstPass(crypto, pool, init);
      if ValidTx(crypto, o.pool, tx) {
        ReplayStep(crypto, pool, o.accepted, o.pool, tx);
      }
    }
  }

  lemma {:induction false} FirstPassKeepsBatch(crypto: Crypto, pool: Pool, txs: seq<Transaction>)
    ensures var o := FirstPass(crypto, pool, txs);
      multiset(o.accepted) + multiset(o.pending) == multiset(txs)
  {
    if txs != [] {
      var init, tx := txs[..|txs| - 1], txs[|txs| - 1];
      FirstPassKeepsBatch(crypto, pool, init);
      assert txs == init + [tx];
      assert multiset(txs) == multiset(init) + multiset{tx};
      var o, r := FirstPass(crypto, pool, init), FirstPass(crypto, pool, txs);
      if ValidTx(crypto, o.pool, tx) {
        assert r.accepted == o.accepted + [tx] && r.pending == o.pending;
        assert multiset(r.accepted) == multiset(o.accepted) + multiset{tx};
      } else {
        assert r.accepted == o.accepted && r.pending == o.pending + [tx];
        assert multiset(r.pending) == multiset(o.pending) + multiset{tx};
      }
    }
  }

  /** A first pass that accepts nothing leaves the pool alone and found every candidate invalid against it. */
  lemma {:induction false} FirstPassNoneAccepted(crypto: Crypto, pool: Pool, txs: seq<Transaction>)
    ensures var o := FirstPass(crypto, pool, txs);
      o.accepted == [] ==> o.pool == pool && forall t :: t in o.pending ==> !ValidTx(crypto, pool, t)
  {
    if txs != [] {
      FirstPassNoneAccepted(crypto, pool, txs[..|txs| - 1]);
    }
  }

  lemma {:induction false} RetryPassReplays(crypto: Crypto, pool: Pool, o: Outcome, i: nat)
    requires Replays(crypto, pool, o)
    ensures Replays(crypto, pool, RetryPass(crypto, o, i))
    decreases |o.pending| + 1 - i
  {
    if i < |o.pending| {
      var tx := o.pending[i];
      if ValidTx(crypto, o.pool, tx) {
        ReplayStep(crypto, pool, o.accepted, o.pool, tx);
        RetryPassReplays(crypto, pool, Outcome(ApplyTx(o.pool, tx), o.accepted + [tx], RemoveFirst(o.pending, tx)), i + 1);
      } else {
        RetryPassReplays(crypto, pool, o, i + 1);
      }
    }
  }

  lemma {:induction false} RetryPassKeepsBatch(crypto: Crypto, o: Outcome, i: nat)
    ensures var r := RetryPass(crypto, o, i);
      multiset(r.accepted) + multiset(r.pending) == multiset(o.accepted) + multiset(o.pending)
    decreases |o.pending| + 1 - i
  {
    if i < |o.pending| {
      var tx := o.pending[i];
      if ValidTx(crypto, o.pool, tx) {
        assert tx in o.pending;
        RetryPassKeepsBatch(crypto, Outcome(ApplyTx(o.pool, tx), o.accepted + [tx], RemoveFirst(o.pending, tx)), i + 1);
      } else {
        RetryPassKeepsBatch(crypto, o, i + 1);
      }
    }
  }

  /** A pass that leaves the pending list as long as it was changed nothing, and found nothing valid. */
  lemma {:induction false} RetryPassStable(crypto: Crypto, o: Outcome, i: nat)
    ensures var r := RetryPass(crypto, o, i);
      |r.pending| == |o.pending| ==>
        r == o && forall j :: i <= j < |o.pending| ==> !ValidTx(crypto, o.pool, o.pending[j])
    decreases |o.pending| + 1 - i
  {
    if i < |o.pending| {
      var tx := o.pending[i];
      if ValidTx(crypto, o.pool, tx) {
        assert tx in o.pending;
      } else {
        RetryPassStable(crypto, o, i + 1);
      }
    }
  }

  lemma {:induction false} RetryInvariant(crypto: Crypto, pool: Pool, o: Outcome)
    requires Replays(crypto, pool, o)
    ensures var r := Retry(crypto, o);
      && Replays(crypto, pool, r)
      && multiset(r.accepted) + multiset(r.pending) == multiset(o.accepted) + multiset(o.pending)
      && forall t :: t in r.pending ==> !ValidTx(crypto, r.pool, t)
    decreases |o.pending|
  {
    var r := RetryPass(crypto, o, 0);
    RetryPassReplays(crypto, pool, o, 0);
    RetryPassKeepsBatch(crypto, o, 0);
    RetryPassStable(crypto, o, 0);
    if |r.pending| < |o.pending| {
      RetryInvariant(crypto, pool, r);
    }
  }

  /**
    What handleTxs promises: the accepted transactions replay, in acceptance order, from the
    starting pool to the final pool (each valid when applied); accepted and left-over
    transactions together are exactly the candidates; nothing left over is valid against
    the final pool.
  */
  lemma HandleCorrect(crypto: Crypto, pool: Pool, txs: seq<Transaction>)
    ensures var o := Handle(crypto, pool, txs);
      && Replay(crypto, pool, o.accepted) == Some(o.pool)
      && multiset(o.accepted) + multiset(o.pending) == multiset(txs)
      && forall t :: t in o.pending ==> !ValidTx(crypto, o.pool, t)
  {
    var o := FirstPass(crypto, pool, txs);
    FirstPassReplays(crypto, pool, txs);
    FirstPassKeepsBatch(crypto, pool, txs);
    FirstPassNoneAccepted(crypto, pool, txs);
    if |o.accepted| == |txs| {
      assert |o.pending| == 0 by {
        assert |multiset(o.accepted) + multiset(o.pending)| == |multiset(txs)|;
      }
    } else if o.accepted != [] {
      RetryInvariant(crypto, pool, o);
    }
  }

  // ---------------------------------------------------------------------------------------
  // The handler

  class TxHandler {
    const crypto: Crypto
    /** The handler's own UTXO pool. */
    var ledger: Pool

    /** The handler starts from a copy of the caller's pool; being a value, the caller's pool never changes. */
    constructor (crypto: Crypto, utxoPool: Pool)
      ensures this.crypto == crypto && ledger == utxoPool
    {
      this.crypto := crypto;
      ledger := utxoPool;
    }

    /** Checks the five rules in the order of the source, reading but not changing the pool. */
    method IsValidTx(tx: Transaction) returns (valid: bool)
      ensures valid == ValidTx(crypto, ledger, tx)
    {
      var inputsOk, sumOfInputs := CheckInputs(crypto, ledger, tx);
      if !inputsOk {
        return false;
      }
      var outputsOk, sumOfOutputs := CheckOutputs(tx);
      if !outputsOk {
        return false;
      }
      // (5) the inputs cover the outputs
      if sumOfInputs < sumOfOutputs {
        return false;
      }
      return true;
    }

    /** Rules (1) to (3) over every input, in order, adding up the claimed values on the way. */
    static method CheckInputs(crypto: Crypto, pool: Pool, tx: Transaction) returns (ok: bool, sumOfInputs: int)
      ensures ok <==> InputsInPool(pool, tx) && SignaturesVerify(crypto, pool, tx) && NoDoubleClaim(tx)
      ensures ok ==> sumOfInputs == InputSum(pool, tx.inputs)
    {
      sumOfInputs := 0;
      var outputsFound := new UTXO[|tx.inputs|];
      var i := 0;
      while i < |tx.inputs|
        invariant 0 <= i <= |tx.inputs|
        invariant PassedUpTo(crypto, pool, tx, i)
        invariant forall k :: 0 <= k < i ==> outputsFound[k] == Claimed(tx.inputs[k])
        invariant sumOfInputs == InputSum(pool, tx.inputs[..i])
      {
        var outputClaimed := Claimed(tx.inputs[i]);
        // (1) the claimed output is in the pool
        if outputClaimed !in pool {
          assert !InputsInPool(pool, tx);
          return false, sumOfInputs;
        }
        // (2) the owner of the claimed output signed this input
        if !InputSigned(crypto, pool, tx, i) {
          assert !(InputsInPool(pool, tx) && SignaturesVerify(crypto, pool, tx));
          return false, sumOfInputs;
        }
        // (3) no earlier input claims the same output
        outputsFound[i] := outputClaimed;
        var seen := FoundBefore(outputsFound, i, outputClaimed);
        if seen {
          assert !NoDoubleClaim(tx) by {
            var j :| 0 <= j < i && outputsFound[j] == outputClaimed;
            assert Claimed(tx.inputs[i]) == Claimed(tx.inputs[j]);
          }
          return false, sumOfInputs;
        }
        assert forall j :: 0 <= j < i ==> outputsFound[j] == Claimed(tx.inputs[j]) != outputClaimed;
        InputChecksStep(crypto, pool, tx, i);
        InputSumStep(pool, tx.inputs, i);
        sumOfInputs := sumOfInputs + pool[outputClaimed].value;
        i := i + 1;
      }
      assert tx.inputs[..i] == tx.inputs;
      PassedAll(crypto, pool, tx);
      return true, sumOfInputs;
    }

    /** Rule (4) over every output, in order, adding up the output values on the way. */
    static method CheckOutputs(tx: Transaction) returns (ok: bool, sumOfOutputs: int)
      ensures ok <==> OutputsNonNegative(tx)
      ensures ok ==> sumOfOutputs == OutputSum(tx.outputs)
    {
      sumOfOutputs := 0;
      var i := 0;
      while i < |tx.outputs|
        invariant 0 <= i <= |tx.outputs|
        invariant forall k :: 0 <= k < i ==> tx.outputs[k].value >= 0
        invariant sumOfOutputs == OutputSum(tx.outputs[..i])
      {
        if tx.outputs[i].value < 0 {
          assert !OutputsNonNegative(tx);
          return false, sumOfOutputs;
        }
        OutputSumStep(tx.outputs, i);
        sumOfOutputs := sumOfOutputs + tx.outputs[i].value;
        i := i + 1;
      }
      assert tx.outputs[..i] == tx.outputs;
      return true, sumOfOutputs;
    }

    /** The scan for rule (3): whether `u` is among the first `n` claimed outputs recorded so far. */
    static method FoundBefore(outputsFound: array<UTXO>, n: nat, u: UTXO) returns (found: bool)
      requires n <= outputsFound.Length
      ensures found ==> exists k :: 0 <= k < n && outputsFound[k] == u
      ensures !found ==> forall k :: 0 <= k < n ==> outputsFound[k] != u
    {
      var j := 0;
      while j < n
        invariant 0 <= j <= n
        invariant forall k :: 0 <= k < j ==> outputsFound[k] != u
      {
        if u == outputsFound[j] {
          return true;
        }
        j := j + 1;
      }
      return false;
    }

    /** Removes the UTXOs the transaction spends, then adds the ones it creates. */
    method UpdateLedger(tx: Transaction)
      modifies this
      ensures ledger == ApplyTx(old(ledger), tx)
    {
      var k := 0;
      while k < |tx.inputs|
        invariant 0 <= k <= |tx.inputs|
        invariant ledger == old(ledger) - ClaimedBy(tx.inputs[..k])
      {
        assert tx.inputs[..k + 1][..k] == tx.inputs[..k];
        ledger := ledger - {Claimed(tx.inputs[k])};
        k := k + 1;
      }
      assert tx.inputs[..k] == tx.inputs;

      ghost var spent := ledger;
      var i := 0;
      while i < |tx.outputs|
        invariant 0 <= i <= |tx.outputs|
        invariant ledger == spent + Created(tx.hash, tx.outputs[..i])
      {
        assert tx.outputs[..i + 1][..i] == tx.outputs[..i];
        ledger := ledger[UTXO(tx.hash, i) := tx.outputs[i]];
        i := i + 1;
      }
      assert tx.outputs[..i] == tx.outputs;
    }

    /**
      Processes a batch: one greedy pass, then, unless it accepted all or nothing, passes
      over the rejected list until a pass leaves it as long as it was. Returns the accepted
      transactions in acceptance order.
    */
    method HandleTxs(possibleTxs: seq<Transaction>) returns (acceptedTxs: seq<Transaction>)
      modifies this
      ensures var o := Handle(crypto, old(ledger), possibleTxs); acceptedTxs == o.accepted && ledger == o.pool
      ensures Replay(crypto, old(ledger), acceptedTxs) == Some(ledger)
      ensures multiset(acceptedTxs) <= multiset(possibleTxs)
      ensures forall t :: t in multiset(possibleTxs) - multiset(acceptedTxs) ==> !ValidTx(crypto, ledger, t)
    {
      HandleCorrect(crypto, ledger, possibleTxs);
      var validTxs: seq<Transaction> := [];
      var inValidTxs: seq<Transaction> := [];

      for k := 0 to |possibleTxs|
        invariant Outcome(ledger, validTxs, inValidTxs) == FirstPass(crypto, old(ledger), possibleTxs[..k])
      {
        assert possibleTxs[..k + 1][..k] == possibleTxs[..k];
        var tx := possibleTxs[k];
        var valid := IsValidTx(tx);
        if valid {
          UpdateLedger(tx);
          validTxs := validTxs + [tx];
        } else {
          inValidTxs := inValidTxs + [tx];
        }
      }
      assert possibleTxs[..|possibleTxs|] == possibleTxs;

      if |validTxs| == |possibleTxs| || validTxs == [] {
        return validTxs;
      }

      ghost var target := Retry(crypto, Outcome(ledger, validTxs, inValidTxs));
      var numOfInvalidTxs := |inValidTxs| + 1;
      while |inValidTxs| < numOfInvalidTxs
        invariant if |inValidTxs| < numOfInvalidTxs
                  then Retry(crypto, Outcome(ledger, validTxs, inValidTxs)) == target
                  else Outcome(ledger, validTxs, inValidTxs) == target
        decreases numOfInvalidTxs
      {
        numOfInvalidTxs := |inValidTxs|;
        ghost var before := Outcome(ledger, validTxs, inValidTxs);
        var i := 0;
        while i < |inValidTxs|
          invariant RetryPass(crypto, Outcome(ledger, validTxs, inValidTxs), i) == RetryPass(crypto, before, 0)
          decreases |inValidTxs| + 1 - i
        {
          var tx := inValidTxs[i];
          var valid := IsValidTx(tx);
          if valid {
            UpdateLedger(tx);
            validTxs := validTxs + [tx];
            inValidTxs := RemoveFirst(inValidTxs, tx);
          }
          i := i + 1;
        }
      }
      return validTxs;
    }
  }
}
