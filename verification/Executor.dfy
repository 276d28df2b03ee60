/** Batches of transactions: internal/state_machine/executor.go. */
module Executor {
  import opened Bytes
  import opened Options
  import opened ChainTypes
  import opened StateMachine
  import opened Validation

  // ----- What a batch does

  datatype TxError = GasLimit | Invalid(why: InvalidTx) | ApplyFailed(e: ApplyError)

  /** The outcome of a batch: the data, the transactions applied, and the errors of the others. */
  datatype Outcome = Outcome(data: Data, applied: seq<Tx>, errors: seq<TxError>)

  function GasOf(txs: seq<Tx>): nat {
    if txs == [] then 0 else GasOf(txs[..|txs| - 1]) + txs[|txs| - 1].gas
  }

  function TxFault(t: Tx, used: nat, maxGas: u64): Option<TxError> {
    if used + t.gas > maxGas then Some(GasLimit)
    else if ValidateTx(t).Some? then Some(Invalid(ValidateTx(t).value))
    else if t.key == [] then Some(ApplyFailed(KeyRequired))
    else None
  }

  /** Which error a transaction is reported with: the gas limit before the checks, and these before the state. */
  lemma {:induction false} TxFaultMeans(t: Tx, used: nat, maxGas: u64)
    ensures TxFault(t, used, maxGas).None? <==>
            used + t.gas <= maxGas && ValidateTx(t).None? && t.gas != 0 && t.key != []
    ensures TxFault(t, used, maxGas) == Some(GasLimit) <==> used + t.gas > maxGas
    ensures forall why :: TxFault(t, used, maxGas) == Some(Invalid(why)) <==>
                            used + t.gas <= maxGas && ValidateTx(t) == Some(why)
    ensures TxFault(t, used, maxGas) == Some(ApplyFailed(KeyRequired)) <==>
            used + t.gas <= maxGas && ValidateTx(t).None? && t.key == []
  {
  }

  function After(o: Outcome, t: Tx, maxGas: u64): Outcome {
    var fault := TxFault(t, GasOf(o.applied), maxGas);
    if fault.Some? then o.(errors := o.errors + [fault.value])
    else Outcome(ApplyTo(o.data, t), o.applied + [t], o.errors)
  }

  function RunBatch(d: Data, txs: seq<Tx>, maxGas: u64): Outcome {
    if txs == [] then Outcome(d, [], [])
    else After(RunBatch(d, txs[..|txs| - 1], maxGas), txs[|txs| - 1], maxGas)
  }

  ghost predicate Accounted(d: Data, txs: seq<Tx>, maxGas: u64, o: Outcome) {
    && |o.applied| + |o.errors| == |txs|
    && GasOf(o.applied) <= maxGas
    && o.data == ApplyAll(d, o.applied)
    && (o.errors == [] ==> o.applied == txs)
    && (forall t :: t in o.applied ==> t in txs && ValidateTx(t).None? && Applies(t))
  }

  lemma AfterAccounts(d: Data, init: seq<Tx>, t: Tx, maxGas: u64, o: Outcome)
    requires Accounted(d, init, maxGas, o)
    ensures Accounted(d, init + [t], maxGas, After(o, t, maxGas))
  {
    var applied := o.applied + [t];
    assert applied[..|applied| - 1] == o.applied;
  }

  /** Every transaction is either applied within the gas limit or reported, and the data is the fold of the applied. */
  lemma {:induction false} BatchAccounts(d: Data, txs: seq<Tx>, maxGas: u64)
    ensures Accounted(d, txs, maxGas, RunBatch(d, txs, maxGas))
  {
    if txs != [] {
      var init, t := txs[..|txs| - 1], txs[|txs| - 1];
      BatchAccounts(d, init, maxGas);
      AfterAccounts(d, init, t, maxGas, RunBatch(d, init, maxGas));
      assert txs == init + [t];
    }
  }

  lemma RunBatchNext(d: Data, txs: seq<Tx>, i: nat, maxGas: u64)
    requires i < |txs|
    ensures RunBatch(d, txs[..i + 1], maxGas) == After(RunBatch(d, txs[..i], maxGas), txs[i], maxGas)
  {
    assert txs[..i + 1][..i] == txs[..i];
  }

  lemma BatchCounts(d: Data, txs: seq<Tx>, maxGas: u64)
    ensures var o := RunBatch(d, txs, maxGas); GasOf(o.applied) <= maxGas && |o.applied| + |o.errors| == |txs|
  {
    BatchAccounts(d, txs, maxGas);
  }

  /** One transaction more: reported or applied, by the gas that those applied before it have used. */
  lemma {:induction false} BatchStep(d: Data, txs: seq<Tx>, t: Tx, maxGas: u64)
    ensures var o, r := RunBatch(d, txs, maxGas), RunBatch(d, txs + [t], maxGas);
      if GasOf(o.applied) + t.gas <= maxGas && ValidateTx(t).None? && t.key != [] then
        r.applied == o.applied + [t] && r.errors == o.errors && r.data == o.data[t.key := t.value]
      else
        r.applied == o.applied && r.data == o.data && |r.errors| == |o.errors| + 1 && r.errors[..|o.errors|] == o.errors
  {
    assert (txs + [t])[..|txs|] == txs;
  }

  lemma {:induction false} GasAddsUp(txs: seq<Tx>, t: Tx)
    ensures GasOf([]) == 0 && GasOf(txs + [t]) == GasOf(txs) + t.gas
  {
    assert (txs + [t])[..|txs|] == txs;
  }

  lemma FittingTxIsApplied(o: Outcome, t: Tx, maxGas: u64)
    requires GasOf(o.applied) + t.gas <= maxGas && ValidateTx(t).None? && t.key != []
    ensures After(o, t, maxGas) == Outcome(ApplyTo(o.data, t), o.applied + [t], o.errors)
  {
  }

  lemma BatchGrows(d: Data, init: seq<Tx>, t: Tx, maxGas: u64)
    requires RunBatch(d, init, maxGas) == Outcome(ApplyAll(d, init), init, [])
    requires GasOf(init) + t.gas <= maxGas && ValidateTx(t).None? && t.key != []
    ensures RunBatch(d, init + [t], maxGas) == Outcome(ApplyAll(d, init + [t]), init + [t], [])
  {
    assert (init + [t])[..|init|] == init;
    FittingTxIsApplied(RunBatch(d, init, maxGas), t, maxGas);
  }

  /** A batch of valid transactions that fits is applied whole. */
  lemma {:induction false} SmallValidBatchApplies(d: Data, txs: seq<Tx>, maxGas: u64)
    requires GasOf(txs) <= maxGas
    requires forall i :: 0 <= i < |txs| ==> ValidateTx(txs[i]).None? && txs[i].key != []
    ensures RunBatch(d, txs, maxGas) == Outcome(ApplyAll(d, txs), txs, [])
  {
    if txs != [] {
      var init, t := txs[..|txs| - 1], txs[|txs| - 1];
      assert txs == init + [t];
      assert GasOf(txs) == GasOf(init) + t.gas;
      assert ValidateTx(t).None? && t.key != [];
      SmallValidBatchApplies(d, init, maxGas);
      BatchGrows(d, init, t, maxGas);
    }
  }

  datatype Result = Result(applied: nat, failed: nat, gasUsed: u64, root: str, errors: seq<TxError>)

  ghost predicate Reports(r: Result, o: Outcome) {
    r.applied == |o.applied| && r.failed == |o.errors| && r.gasUsed == GasOf(o.applied) && r.errors == o.errors
  }

  class Executor {
    const state: State
    const maxGas: u64

    constructor (state: State)
      ensures this.state == state && maxGas == 10000000
    {
      this.state, this.maxGas := state, 10000000;
    }

    /** One round of the loop of `Execute`. */
    method ExecuteOne(t: Tx, r: Result, ghost o: Outcome) returns (r': Result)
      requires state.data == o.data && Reports(r, o) && GasOf(o.applied) <= maxGas
      modifies state`data
      ensures state.data == After(o, t, maxGas).data && Reports(r', After(o, t, maxGas))
    {
      if t.gas > maxGas - r.gasUsed {
        return r.(failed := r.failed + 1, errors := r.errors + [GasLimit]);
      }
      var invalid := ValidateTx(t);
      if invalid.Some? {
        return r.(failed := r.failed + 1, errors := r.errors + [Invalid(invalid.value)]);
      }
      var e := state.Apply(t);
      if e.Some? {
        return r.(failed := r.failed + 1, errors := r.errors + [ApplyFailed(e.value)]);
      }
      assert (o.applied + [t])[..|o.applied|] == o.applied;
      return r.(applied := r.applied + 1, gasUsed := r.gasUsed + t.gas);
    }

    method Execute(txs: seq<Tx>) returns (r: Result)
      modifies state`data
      ensures var o := RunBatch(old(state.data), txs, maxGas);
        state.data == o.data && Reports(r, o) && r.root == RootOf(o.data)
      ensures r.applied + r.failed == |txs| && |r.errors| == r.failed && r.gasUsed <= maxGas
    {
      ghost var d := state.data;
      r := Result(0, 0, 0, [], []);
      for i := 0 to |txs|
        invariant state.data == RunBatch(d, txs[..i], maxGas).data
        invariant Reports(r, RunBatch(d, txs[..i], maxGas))
      {
        BatchCounts(d, txs[..i], maxGas);
        RunBatchNext(d, txs, i, maxGas);
        r := ExecuteOne(txs[i], r, RunBatch(d, txs[..i], maxGas));
      }
      assert txs[..|txs|] == txs;
      BatchCounts(d, txs, maxGas);
      var root := state.Root();
      r := r.(root := root);
    }

    /** All or nothing.  The root reported for a failed batch is that of the data before it was rolled back. */
    method ApplyWithRollback(h: u64, txs: seq<Tx>) returns (r: Result, rolledBack: Option<bool>)
      modifies state
      ensures var o := RunBatch(old(state.data), txs, maxGas);
        Reports(r, o) && r.root == RootOf(o.data)
      ensures r.failed > 0 ==> state.data == old(state.data) && rolledBack == Some(true)
      ensures r.failed == 0 ==> state.data == ApplyAll(old(state.data), txs) && rolledBack == None
      ensures state.versions == old(state.versions)[h := old(state.data)]
    {
      BatchAccounts(state.data, txs, maxGas);
      var _ := state.Snapshot(h);
      r := Execute(txs);
      if r.failed > 0 {
        var ok := state.Rollback(h);
        return r, Some(ok);
      }
      return r, None;
    }
  }
}
