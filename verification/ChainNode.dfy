/**
  The node object of internal/app/node.go.  Each method performs one step of `NodeMachine`, so any interleaving of
  calls is a run of that machine; `Mine` is the uninterrupted sequence of the steps of one mine request.
 */
module ChainNode {
  import opened Bytes
  import opened Options
  import opened ChainTypes
  import opened ChainDomain
  import opened StateMachine
  import opened Mempool
  import opened Repository
  import opened NodeMachine

  class Node {
    const pool: Pool
    const state: State
    const repo: Repo
    var op: Operation

    ghost function Abs(): NodeState
      reads this, pool, state, repo
    {
      NodeState(pool.State(), state.data, state.versions, repo.blocks, repo.snaps, op)
    }

    constructor ()
      ensures Abs() == NEW_NODE && fresh(pool) && fresh(state) && fresh(repo)
    {
      pool := new Pool(POOL_SIZE);
      state := new State();
      repo := new Repo();
      op := Idle;
    }

    method Submit(t0: Tx, randomId: str) returns (err: Option<AddError>)
      requires Inv(Abs())
      modifies pool
      ensures Abs() == Step(old(Abs()), Event.Submit(t0, randomId))
      ensures var t := if t0.id == [] then t0.(id := randomId) else t0;
        && err == AddFault(old(pool.State()), WithId(t))
        && (err.None? && t.id != [] ==> t.id in pool.tx && pool.tx[t.id] == t)
        && (err.Some? ==> pool.State() == old(pool.State()))
    {
      var t := t0;
      if t.id == [] {
        t := t.(id := randomId);
      }
      err := pool.Add(t);
    }

    method MineList(now: int) returns (txs: seq<Tx>, prev: Block)
      requires Inv(Abs()) && op.Idle?
      modifies this`op
      ensures Enabled(old(Abs()), Event.List(now, txs, prev))
      ensures Abs() == Step(old(Abs()), Event.List(now, txs, prev))
    {
      txs := pool.List(now);
      prev := repo.Latest();
      op := Applying(txs, prev, 0);
    }

    method MineApply()
      requires Enabled(Abs(), ApplyNext)
      modifies this`op, state`data
      ensures Abs() == Step(old(Abs()), ApplyNext)
    {
      var _ := state.Apply(op.txs[op.applied]);
      op := op.(applied := op.applied + 1);
    }

    method MineSeal(timestamp: i64) returns (b: Block, ok: bool)
      requires Enabled(Abs(), Event.Seal(timestamp))
      modifies this`op, repo`blocks
      ensures b == SealedBlock(old(op.txs), old(op.prev), state.data, timestamp)
      ensures b.header.view == 0 && b.header.version == 1 && b.header.timestamp == timestamp && b.commit == []
      ensures |b.header.proposer| == 11 && forall i :: 0 <= i < 11 ==> b.header.proposer[i] == "validator-1"[i] as int
      ensures b.hash == HeaderHash(b.header) && b.header.txRoot == TxRoot(b.transactions)
      ensures b.transactions == old(op.txs) && b.header.stateRoot == RootOf(state.data)
      ensures b.header.prevHash == old(op.prev).hash && b.header.height == Succ(old(op.prev).header.height)
      ensures ok <==> b.header.height !in old(repo.blocks)
      ensures Abs() == Step(old(Abs()), Event.Seal(timestamp))
    {
      var root := state.Root();
      var txRoot := MerkleRoot(op.txs);
      var header := Header(Succ(op.prev.header.height), 0, op.prev.hash, root, txRoot, PROPOSER, timestamp, 1);
      b := Block(header, op.txs, [], HeaderHash(header));
      ok := repo.PutBlock(b);
      op := if ok then Sealed(op.txs) else Idle;
    }

    method MineRemove()
      requires Inv(Abs()) && op.Sealed?
      modifies this`op, pool
      ensures Abs() == Step(old(Abs()), Event.Remove)
    {
      pool.Remove(Ids(op.txs));
      op := Idle;
    }

    /** The loop of `mine` over the listed transactions. */
    method MineApplyAll()
      requires Inv(Abs()) && op.Applying? && op.applied == 0
      modifies this`op, state`data
      ensures op == old(op).(applied := |old(op).txs|)
      ensures state.data == ApplyAll(old(state.data), op.txs)
      ensures Inv(Abs())
    {
      ghost var d := state.data;
      var txs := op.txs;
      while op.applied < |txs|
        invariant op.Applying? && 0 <= op.applied <= |txs| && op == old(op).(applied := op.applied)
        invariant state.data == ApplyAll(d, txs[..op.applied])
        invariant Inv(Abs())
        decreases |txs| - op.applied
      {
        assert txs[..op.applied + 1][..op.applied] == txs[..op.applied];
        ApplyKeepsInv(Abs());
        MineApply();
      }
      assert txs[..|txs|] == txs;
    }

    /** The rest of `mine`: the block is stored and its transactions leave the pool. */
    method MineCommit(timestamp: i64) returns (b: Block)
      requires Inv(Abs()) && op.Applying? && op.applied == |op.txs| && |repo.blocks| < TWO_TO_64 - 1
      modifies this`op, pool, repo`blocks
      ensures Inv(Abs()) && op.Idle?
      ensures b.header.view == 0 && b.header.version == 1 && b.header.timestamp == timestamp && b.commit == []
      ensures |b.header.proposer| == 11 && forall i :: 0 <= i < 11 ==> b.header.proposer[i] == "validator-1"[i] as int
      ensures b.hash == HeaderHash(b.header) && b.header.txRoot == TxRoot(b.transactions)
      ensures b.transactions == old(op.txs) && b.header.stateRoot == RootOf(state.data)
      ensures b.header.prevHash == Tip(old(repo.blocks)).hash
      ensures b.header.height == |old(repo.blocks)| + 1 && b.header.height !in old(repo.blocks)
      ensures repo.blocks == old(repo.blocks)[b.header.height := b]
      ensures pool.State() == AfterRemove(old(pool.State()), Ids(b.transactions))
    {
      SealKeepsInv(Abs(), timestamp);
      NextHeightIsFree(repo.blocks);
      var ok;
      b, ok := MineSeal(timestamp);
      RemoveKeepsInv(Abs());
      MineRemove();
    }

    /** One request without submissions in between: the listed transactions move from the pool into the next block. */
    method Mine(now: int, timestamp: i64) returns (b: Block)
      requires Inv(Abs()) && op.Idle? && |repo.blocks| < TWO_TO_64 - 1
      modifies this`op, pool, state`data, repo`blocks
      ensures Inv(Abs()) && op.Idle?
      ensures b.header.view == 0 && b.header.version == 1 && b.header.timestamp == timestamp && b.commit == []
      ensures |b.header.proposer| == 11 && forall i :: 0 <= i < 11 ==> b.header.proposer[i] == "validator-1"[i] as int
      ensures b.hash == HeaderHash(b.header) && b.header.txRoot == TxRoot(b.transactions)
      ensures b.header.stateRoot == RootOf(state.data) && b.header.prevHash == Tip(old(repo.blocks)).hash
      ensures IsListing(old(pool.tx), now, b.transactions)
      ensures b.header.height == |old(repo.blocks)| + 1 && b.header.height !in old(repo.blocks)
      ensures repo.blocks == old(repo.blocks)[b.header.height := b]
      ensures state.data == ApplyAll(old(state.data), b.transactions)
      ensures pool.State() == AfterRemove(old(pool.State()), Ids(b.transactions))
      ensures pool.tx == map id | id in old(pool.tx) && Stale(old(pool.tx)[id], now) :: old(pool.tx)[id]
    {
      var txs, prev := MineList(now);
      ListedLeavePool(old(pool.State()), now, txs);
      ListKeepsInv(old(Abs()), now, txs, prev);
      MineApplyAll();
      b := MineCommit(timestamp);
    }

    method TakeSnapshot(id: str) returns (tip: Block, s: ChainTypes.Snapshot)
      requires Inv(Abs()) && op.Idle?
      modifies repo`snaps, state`versions
      ensures Enabled(old(Abs()), Event.TakeSnapshot(id, tip))
      ensures Abs() == Step(old(Abs()), Event.TakeSnapshot(id, tip)) && s == repo.snaps[id]
    {
      tip := repo.Latest();
      var root := state.Root();
      s := ChainTypes.Snapshot(id, tip.header.height, root, state.data, false);
      repo.PutSnapshot(s);
      var _ := state.Snapshot(s.height);
    }

    /** Absent when there is no such snapshot. */
    method VerifySnapshot(id: str) returns (verified: Option<bool>)
      requires op.Idle?
      modifies repo`snaps
      ensures Abs() == Step(old(Abs()), Event.VerifySnapshot(id))
      ensures verified.None? <==> id == [] || id !in old(repo.snaps)
      ensures verified.Some? ==> verified.value == (old(repo.snaps)[id].root == RootOf(state.data))
    {
      if id == [] {
        return None;
      }
      var found := repo.Snapshot(id);
      if found.None? {
        return None;
      }
      var root := state.Root();
      var s := found.value.(verified := found.value.root == root);
      repo.PutSnapshot(s);
      return Some(s.verified);
    }
  }
}
