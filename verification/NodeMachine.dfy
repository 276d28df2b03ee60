/**
  The node as a state machine: the transitions of internal/app/node.go without HTTP.  `opMu` lets one mine or
  snapshot operation run at a time, while submissions take no lock; a mine operation is therefore split into the
  steps between which a submission can fall.
 */
module NodeMachine {
  import opened Bytes
  import opened Sets
  import opened Hashing
  import opened ChainTypes
  import opened ChainDomain
  import opened StateMachine
  import opened Mempool
  import opened Repository

  /** "validator-1" */
  const PROPOSER: str := [118, 97, 108, 105, 100, 97, 116, 111, 114, 45, 49]

  const POOL_SIZE := 1000

  /** What a mine operation in flight holds in its local variables. */
  datatype Operation =
    | Idle
    | Applying(txs: seq<Tx>, prev: Block, applied: nat)
    | Sealed(txs: seq<Tx>)

  datatype NodeState = NodeState(
    pool: Pending, data: Data, versions: map<u64, Data>,
    blocks: Blocks, snaps: map<str, ChainTypes.Snapshot>, op: Operation)

  /** Steps carry what the environment chooses: clocks, random identifiers, orders the code leaves open. */
  datatype Event =
    | Submit(t: Tx, randomId: str)
    | List(now: int, txs: seq<Tx>, prev: Block)
    | ApplyNext
    | Seal(timestamp: i64)
    | Remove
    | TakeSnapshot(id: str, tip: Block)
    | VerifySnapshot(id: str)

  function Ids(txs: seq<Tx>): (ids: seq<str>)
    ensures |ids| == |txs|
  {
    seq(|txs|, i requires 0 <= i < |txs| => txs[i].id)
  }

  ghost function SealedBlock(txs: seq<Tx>, prev: Block, data: Data, timestamp: i64): Block {
    var header := Header(Succ(prev.header.height), 0, prev.hash, RootOf(data), TxRoot(txs), PROPOSER, timestamp, 1);
    Block(header, txs, [], HeaderHash(header))
  }

  ghost predicate Enabled(s: NodeState, e: Event) {
    match e
    case Submit(_, _) => true
    case List(now, txs, prev) => s.op.Idle? && IsListing(s.pool.tx, now, txs) && IsLatest(s.blocks, prev)
    case ApplyNext => s.op.Applying? && s.op.applied < |s.op.txs|
    case Seal(_) => s.op.Applying? && s.op.applied == |s.op.txs|
    case Remove => s.op.Sealed?
    case TakeSnapshot(_, tip) => s.op.Idle? && IsLatest(s.blocks, tip)
    case VerifySnapshot(_) => s.op.Idle?
  }

  ghost function Step(s: NodeState, e: Event): NodeState
    requires Enabled(s, e)
  {
    match e
    case Submit(t, randomId) =>
      s.(pool := AfterAdd(s.pool, if t.id == [] then t.(id := randomId) else t))
    case List(_, txs, prev) => s.(op := Applying(txs, prev, 0))
    case ApplyNext =>
      s.(data := ApplyTo(s.data, s.op.txs[s.op.applied]), op := s.op.(applied := s.op.applied + 1))
    case Seal(timestamp) =>
      var b := SealedBlock(s.op.txs, s.op.prev, s.data, timestamp);
      if b.header.height in s.blocks then s.(op := Idle)
      else s.(blocks := s.blocks[b.header.height := b], op := Sealed(s.op.txs))
    case Remove => s.(pool := AfterRemove(s.pool, Ids(s.op.txs)), op := Idle)
    case TakeSnapshot(id, tip) =>
      s.(snaps := s.snaps[id := ChainTypes.Snapshot(id, tip.header.height, RootOf(s.data), s.data, false)],
         versions := s.versions[tip.header.height := s.data])
    case VerifySnapshot(id) =>
      if id == [] || id !in s.snaps then s
      else
        var snap := s.snaps[id];
        s.(snaps := s.snaps[snap.id := snap.(verified := snap.root == RootOf(s.data))])
  }

  const NEW_NODE := NodeState(Pending(POOL_SIZE, map[], map[]), map[], map[], map[], map[], Idle)

  ghost predicate CanRun(s: NodeState, es: seq<Event>)
    decreases |es|, 0
  {
    es == [] || (CanRun(s, es[..|es| - 1]) && Enabled(Run(s, es[..|es| - 1]), es[|es| - 1]))
  }

  ghost function Run(s: NodeState, es: seq<Event>): NodeState
    requires CanRun(s, es)
    decreases |es|, 1
  {
    if es == [] then s else Step(Run(s, es[..|es| - 1]), es[|es| - 1])
  }

  // ----- Replay

  /** The data after the transactions of blocks 1 to `n`, applied from nothing. */
  function Replay(blocks: Blocks, n: nat): Data {
    if n == 0 || n >= TWO_TO_64 then map[]
    else if n !in blocks then Replay(blocks, n - 1)
    else ApplyAll(Replay(blocks, n - 1), blocks[n].transactions)
  }

  lemma {:induction false} ReplayBelow(blocks: Blocks, b: Block, h: u64, n: nat)
    requires n < h
    ensures Replay(blocks[h := b], n) == Replay(blocks, n)
  {
    if n > 0 {
      ReplayBelow(blocks, b, h, n - 1);
    }
  }

  predicate DistinctIds(txs: seq<Tx>) {
    forall i, j :: 0 <= i < j < |txs| ==> txs[i].id != txs[j].id
  }

  // ----- The invariant

  /** A stored block commits to the replay of the chain up to it. */
  ghost predicate BlockReplays(blocks: Blocks, h: u64)
    requires h in blocks
  {
    && blocks[h].header.stateRoot == RootOf(Replay(blocks, h))
    && blocks[h].header.proposer == PROPOSER
    && DistinctIds(blocks[h].transactions)
    && (h == 1 ==> blocks[h].header.prevHash == [])
  }

  ghost predicate ChainReplays(blocks: Blocks) {
    && Keyed(blocks) && Accepted(blocks) && SelfHashed(blocks)
    && forall h :: h in blocks ==> BlockReplays(blocks, h)
  }

  ghost predicate SnapshotReplays(blocks: Blocks, id: str, snap: ChainTypes.Snapshot) {
    && snap.id == id && snap.height <= |blocks|
    && snap.data == Replay(blocks, snap.height)
    && snap.root == RootOf(snap.data)
  }

  ghost predicate SnapshotsReplay(blocks: Blocks, snaps: map<str, ChainTypes.Snapshot>) {
    forall id :: id in snaps ==> SnapshotReplays(blocks, id, snaps[id])
  }

  ghost predicate VersionsReplay(blocks: Blocks, versions: map<u64, Data>) {
    forall h :: h in versions ==> h <= |blocks| && versions[h] == Replay(blocks, h)
  }

  /** The live data is the replay of all blocks, ahead of it only by what the operation in flight has applied. */
  ghost predicate OperationReplays(s: NodeState) {
    match s.op
    case Applying(txs, prev, applied) =>
      && Accepted(s.blocks) && prev == Tip(s.blocks)
      && applied <= |txs| && DistinctIds(txs)
      && s.data == ApplyAll(Replay(s.blocks, |s.blocks|), txs[..applied])
    case _ => s.data == Replay(s.blocks, |s.blocks|)
  }

  ghost predicate Inv(s: NodeState) {
    && Agrees(s.pool)
    && ChainReplays(s.blocks)
    && SnapshotsReplay(s.blocks, s.snaps)
    && VersionsReplay(s.blocks, s.versions)
    && OperationReplays(s)
  }

  lemma NewNodeInv()
    ensures Inv(NEW_NODE)
  {
  }

  lemma TipHeight(blocks: Blocks)
    requires Keyed(blocks) && Accepted(blocks)
    ensures Tip(blocks).header.height == |blocks|
    ensures |blocks| < TWO_TO_64
  {
    if |blocks| > 0 {
      assert AcceptedAt(blocks, |blocks|);
    }
  }

  /** The height after the tip is free, so `PutBlock` inside a mine operation never fails. */
  lemma NextHeightIsFree(blocks: Blocks)
    requires Keyed(blocks) && Accepted(blocks) && |blocks| < TWO_TO_64 - 1
    ensures Succ(Tip(blocks).header.height) == |blocks| + 1
    ensures Succ(Tip(blocks).header.height) !in blocks
  {
    TipHeight(blocks);
    AcceptedHeights(blocks);
  }

  lemma AppendAccepted(blocks: Blocks, b: Block)
    requires Keyed(blocks) && Accepted(blocks) && |blocks| < TWO_TO_64 - 1
    requires b.header.height == |blocks| + 1 && b.header.prevHash == Tip(blocks).hash
    requires b.header.txRoot == TxRoot(b.transactions) && b.hash != []
    ensures b.header.height !in blocks
    ensures Keyed(blocks[b.header.height := b]) && Accepted(blocks[b.header.height := b])
    ensures |blocks[b.header.height := b]| == |blocks| + 1
  {
    AcceptedHeights(blocks);
    TipHeight(blocks);
    var more := blocks[b.header.height := b];
    forall h | 1 <= h <= |more|
      ensures AcceptedAt(more, h)
    {
      if h <= |blocks| {
        assert AcceptedAt(blocks, h);
      } else if h > 1 {
        assert AcceptedAt(blocks, h - 1);
      }
    }
  }

  /** What `mine` puts in the block after the tip. */
  ghost predicate Extends(blocks: Blocks, b: Block)
    requires Accepted(blocks)
  {
    && b.header.height == |blocks| + 1 && b.header.prevHash == Tip(blocks).hash
    && b.header.txRoot == TxRoot(b.transactions) && b.hash == HeaderHash(b.header)
    && b.header.stateRoot == RootOf(ApplyAll(Replay(blocks, |blocks|), b.transactions))
    && b.header.proposer == PROPOSER && DistinctIds(b.transactions)
  }

  lemma AppendedBlockReplays(blocks: Blocks, b: Block)
    requires Accepted(blocks) && Extends(blocks, b) && b.header.height !in blocks
    ensures var more := blocks[b.header.height := b];
      && BlockReplays(more, b.header.height)
      && Replay(more, b.header.height) == ApplyAll(Replay(blocks, |blocks|), b.transactions)
  {
    ReplayBelow(blocks, b, b.header.height, |blocks|);
  }

  lemma OldBlockReplays(blocks: Blocks, b: Block, n: u64, h: u64)
    requires h in blocks && h < n && BlockReplays(blocks, h)
    ensures BlockReplays(blocks[n := b], h)
  {
    ReplayBelow(blocks, b, n, h);
  }

  lemma AppendReplays(blocks: Blocks, b: Block)
    requires ChainReplays(blocks) && |blocks| < TWO_TO_64 - 1
    requires Extends(blocks, b)
    ensures var more := blocks[b.header.height := b];
      && ChainReplays(more) && |more| == |blocks| + 1
      && Replay(more, |more|) == ApplyAll(Replay(blocks, |blocks|), b.transactions)
  {
    AppendAccepted(blocks, b);
    AcceptedHeights(blocks);
    var n, more := b.header.height, blocks[b.header.height := b];
    AppendedBlockReplays(blocks, b);
    forall h | h in more
      ensures BlockReplays(more, h)
    {
      if h != n {
        OldBlockReplays(blocks, b, n, h);
      }
    }
  }

  lemma GrownStoreKeepsReplays(blocks: Blocks, b: Block, h: u64,
                               snaps: map<str, ChainTypes.Snapshot>, versions: map<u64, Data>)
    requires h == |blocks| + 1 && h !in blocks
    requires SnapshotsReplay(blocks, snaps) && VersionsReplay(blocks, versions)
    ensures SnapshotsReplay(blocks[h := b], snaps) && VersionsReplay(blocks[h := b], versions)
  {
    var more := blocks[h := b];
    assert |more| == |blocks| + 1;
    forall id | id in snaps
      ensures SnapshotReplays(more, id, snaps[id])
    {
      assert SnapshotReplays(blocks, id, snaps[id]);
      ReplayBelow(blocks, b, h, snaps[id].height);
    }
    forall g | g in versions
      ensures g <= |more| && versions[g] == Replay(more, g)
    {
      ReplayBelow(blocks, b, h, g);
    }
  }

  lemma SealKeepsInv(s: NodeState, timestamp: i64)
    requires Inv(s) && Enabled(s, Seal(timestamp)) && |s.blocks| < TWO_TO_64 - 1
    ensures Inv(Step(s, Seal(timestamp))) && Step(s, Seal(timestamp)).op == Sealed(s.op.txs)
    ensures |Step(s, Seal(timestamp)).blocks| == |s.blocks| + 1
  {
    var txs := s.op.txs;
    var b := SealedBlock(txs, s.op.prev, s.data, timestamp);
    NextHeightIsFree(s.blocks);
    assert txs[..|txs|] == txs;
    AppendReplays(s.blocks, b);
    GrownStoreKeepsReplays(s.blocks, b, b.header.height, s.snaps, s.versions);
  }

  lemma ListingIds(p: Pending, now: int, txs: seq<Tx>)
    requires Agrees(p) && IsListing(p.tx, now, txs)
    ensures DistinctIds(txs)
  {
    forall i, j | 0 <= i < j < |txs|
      ensures txs[i].id != txs[j].id
    {
      ListingHasDistinctIds(p, now, txs, i, j);
    }
  }

  lemma ListKeepsInv(s: NodeState, now: int, txs: seq<Tx>, prev: Block)
    requires Inv(s) && Enabled(s, List(now, txs, prev))
    ensures Inv(Step(s, List(now, txs, prev)))
  {
    ListingIds(s.pool, now, txs);
    LatestOfAccepted(s.blocks, prev);
    assert txs[..0] == [];
  }

  lemma OperationApplies(s: NodeState)
    requires OperationReplays(s) && Enabled(s, ApplyNext)
    ensures OperationReplays(Step(s, ApplyNext))
  {
    var txs, k := s.op.txs, s.op.applied;
    assert txs[..k + 1] == txs[..k] + [txs[k]];
    ApplyAllNext(Replay(s.blocks, |s.blocks|), txs[..k], txs[k]);
  }

  lemma ApplyAllNext(d: Data, txs: seq<Tx>, t: Tx)
    ensures ApplyAll(d, txs + [t]) == ApplyTo(ApplyAll(d, txs), t)
  {
    assert (txs + [t])[..|txs|] == txs;
  }

  lemma ApplyKeepsInv(s: NodeState)
    requires Inv(s) && Enabled(s, ApplyNext)
    ensures Inv(Step(s, ApplyNext))
  {
    OperationApplies(s);
    var s' := Step(s, ApplyNext);
    assert s'.pool == s.pool && s'.blocks == s.blocks && s'.snaps == s.snaps && s'.versions == s.versions;
  }

  lemma TakenSnapshotReplays(blocks: Blocks, data: Data, id: str, tip: Block)
    requires Keyed(blocks) && Accepted(blocks) && IsLatest(blocks, tip)
    requires data == Replay(blocks, |blocks|)
    ensures tip.header.height == |blocks|
    ensures SnapshotReplays(blocks, id, ChainTypes.Snapshot(id, tip.header.height, RootOf(data), data, false))
  {
    LatestOfAccepted(blocks, tip);
  }

  lemma StoredSnapshotReplays(blocks: Blocks, snaps: map<str, ChainTypes.Snapshot>, id: str, snap: ChainTypes.Snapshot)
    requires SnapshotsReplay(blocks, snaps) && SnapshotReplays(blocks, id, snap)
    ensures SnapshotsReplay(blocks, snaps[id := snap])
  {
  }

  lemma StoredVersionReplays(blocks: Blocks, versions: map<u64, Data>, h: u64, data: Data)
    requires VersionsReplay(blocks, versions) && h <= |blocks| && data == Replay(blocks, h)
    ensures VersionsReplay(blocks, versions[h := data])
  {
  }

  lemma {:induction false} SnapshotKeepsInv(s: NodeState, id: str, tip: Block)
    requires Inv(s) && Enabled(s, TakeSnapshot(id, tip))
    ensures Inv(Step(s, TakeSnapshot(id, tip)))
  {
    var h := tip.header.height;
    TakenSnapshotReplays(s.blocks, s.data, id, tip);
    StoredSnapshotReplays(s.blocks, s.snaps, id, ChainTypes.Snapshot(id, h, RootOf(s.data), s.data, false));
    StoredVersionReplays(s.blocks, s.versions, h, s.data);
    var s' := Step(s, TakeSnapshot(id, tip));
    assert s'.blocks == s.blocks && s'.data == s.data && s'.op == s.op && s'.pool == s.pool;
  }

  lemma VerifyKeepsInv(s: NodeState, id: str)
    requires Inv(s) && Enabled(s, VerifySnapshot(id))
    ensures Inv(Step(s, VerifySnapshot(id)))
  {
    if id in s.snaps {
      var snap := s.snaps[id];
      assert SnapshotReplays(s.blocks, id, snap);
      StoredSnapshotReplays(s.blocks, s.snaps, id, snap.(verified := snap.root == RootOf(s.data)));
    }
  }

  lemma RemoveKeepsInv(s: NodeState)
    requires Inv(s) && Enabled(s, Event.Remove)
    ensures Inv(Step(s, Event.Remove))
  {
    RemoveAgrees(s.pool, Ids(s.op.txs));
  }

  /** With every positive height taken the next block goes to height 0. */
  lemma HeightsRunOut(blocks: Blocks)
    requires Keyed(blocks) && Accepted(blocks) && |blocks| == TWO_TO_64 - 1
    ensures Succ(Tip(blocks).header.height) == 0 && 0 !in blocks
  {
    TipHeight(blocks);
    AcceptedHeights(blocks);
  }

  lemma SealNeedsRoom(s: NodeState, timestamp: i64)
    requires Keyed(s.blocks) && Accepted(s.blocks) && OperationReplays(s)
    requires Enabled(s, Seal(timestamp)) && |s.blocks| == TWO_TO_64 - 1
    ensures Step(s, Seal(timestamp)).op.Sealed? && |Step(s, Seal(timestamp)).blocks| == TWO_TO_64
  {
    HeightsRunOut(s.blocks);
    var b := SealedBlock(s.op.txs, s.op.prev, s.data, timestamp);
    assert b.header.height == 0;
    assert |s.blocks[b.header.height := b]| == |s.blocks| + 1;
  }

  lemma BlocksStay(s: NodeState, e: Event)
    requires Enabled(s, e)
    ensures |s.blocks| <= |Step(s, e).blocks|
  {
    if e.Seal? {
      SubsetCardinality(s.blocks.Keys, Step(s, e).blocks.Keys);
    }
  }

  lemma {:induction false} StepKeepsInv(s: NodeState, e: Event)
    requires Inv(s) && Enabled(s, e) && |Step(s, e).blocks| < TWO_TO_64
    ensures Inv(Step(s, e))
  {
    match e
    case Submit(t, randomId) => AddAgrees(s.pool, if t.id == [] then t.(id := randomId) else t);
    case List(now, txs, prev) => ListKeepsInv(s, now, txs, prev);
    case ApplyNext => ApplyKeepsInv(s);
    case Seal(timestamp) =>
      if |s.blocks| == TWO_TO_64 - 1 {
        SealNeedsRoom(s, timestamp);
      } else {
        TipHeight(s.blocks);
        SealKeepsInv(s, timestamp);
      }
    case Remove => RemoveKeepsInv(s);
    case TakeSnapshot(id, tip) => SnapshotKeepsInv(s, id, tip);
    case VerifySnapshot(id) => VerifyKeepsInv(s, id);
  }

  /**
    In every state a node reaches, by any interleaving of submissions with mine and snapshot steps, the chain
    verifies and the live data, every block's state root and every snapshot are replays of the committed blocks,
    exactly as long as the store has not run out of positive heights.
   */
  lemma {:induction false} ReachableStatesReplay(es: seq<Event>)
    requires CanRun(NEW_NODE, es)
    ensures Inv(Run(NEW_NODE, es)) <==> |Run(NEW_NODE, es).blocks| < TWO_TO_64
  {
    if es == [] {
      NewNodeInv();
    } else {
      var init, e := es[..|es| - 1], es[|es| - 1];
      if |Run(NEW_NODE, es).blocks| < TWO_TO_64 {
        BlocksStay(Run(NEW_NODE, init), e);
        ReachableStatesReplay(init);
        StepKeepsInv(Run(NEW_NODE, init), e);
      }
      if Inv(Run(NEW_NODE, es)) {
        TipHeight(Run(NEW_NODE, es).blocks);
      }
    }
  }

  // ----- Where transactions come from

  function Named(t: Tx, randomId: str): Tx {
    WithId(if t.id == [] then t.(id := randomId) else t)
  }

  ghost predicate Submitted(es: seq<Event>, t: Tx) {
    exists i :: 0 <= i < |es| && es[i].Submit? && t == Named(es[i].t, es[i].randomId)
  }

  ghost predicate AllSubmitted(es: seq<Event>, txs: seq<Tx>) {
    forall i :: 0 <= i < |txs| ==> Submitted(es, txs[i])
  }

  /** Every transaction the node holds, pending, being mined or committed, was submitted. */
  ghost predicate Provenance(es: seq<Event>, s: NodeState) {
    && (forall id :: id in s.pool.tx ==> Submitted(es, s.pool.tx[id]))
    && (!s.op.Idle? ==> AllSubmitted(es, s.op.txs))
    && BlocksSubmitted(es, s.blocks)
  }

  ghost predicate BlocksSubmitted(es: seq<Event>, blocks: Blocks) {
    forall h :: h in blocks ==> AllSubmitted(es, blocks[h].transactions)
  }

  lemma StoredBlockSubmitted(es: seq<Event>, blocks: Blocks, h: u64, b: Block)
    requires BlocksSubmitted(es, blocks) && AllSubmitted(es, b.transactions)
    ensures BlocksSubmitted(es, blocks[h := b])
  {
  }

  /** Removing a listing leaves exactly the transactions it skipped as stale. */
  lemma ListedLeavePool(p: Pending, now: int, txs: seq<Tx>)
    requires Agrees(p) && IsListing(p.tx, now, txs)
    ensures AfterRemove(p, Ids(txs)).tx == map id | id in p.tx && Stale(p.tx[id], now) :: p.tx[id]
  {
    RemoveDropsNamed(p, Ids(txs));
    forall id | id in p.tx
      ensures id in Ids(txs) <==> !Stale(p.tx[id], now)
    {
      ListedIffLive(p, now, txs, id);
      assert forall i :: 0 <= i < |txs| ==> Ids(txs)[i] == txs[i].id;
    }
  }

  lemma SubmittedLater(es: seq<Event>, e: Event, t: Tx)
    requires Submitted(es, t)
    ensures Submitted(es + [e], t)
  {
    var i :| 0 <= i < |es| && es[i].Submit? && t == Named(es[i].t, es[i].randomId);
    assert (es + [e])[i] == es[i];
  }

  lemma ProvenanceLater(es: seq<Event>, e: Event, s: NodeState)
    requires Provenance(es, s)
    ensures Provenance(es + [e], s)
  {
    forall t | Submitted(es, t)
      ensures Submitted(es + [e], t)
    {
      SubmittedLater(es, e, t);
    }
  }

  lemma SubmitProvenance(es: seq<Event>, s: NodeState, t: Tx, randomId: str)
    requires Provenance(es, s)
    ensures Provenance(es + [Submit(t, randomId)], Step(s, Submit(t, randomId)))
  {
    var e := Submit(t, randomId);
    ProvenanceLater(es, e, s);
    assert (es + [e])[|es|] == e;
    assert Submitted(es + [e], Named(t, randomId));
  }

  lemma ListingProvenance(es: seq<Event>, p: Pending, now: int, txs: seq<Tx>)
    requires forall id :: id in p.tx ==> Submitted(es, p.tx[id])
    requires IsListing(p.tx, now, txs)
    ensures AllSubmitted(es, txs)
  {
    forall i | 0 <= i < |txs|
      ensures Submitted(es, txs[i])
    {
      assert txs[i] in multiset(txs);
      assert txs[i] in Live(p.tx, p.tx.Keys, now);
    }
  }

  lemma RemoveProvenance(es: seq<Event>, s: NodeState)
    requires Agrees(s.pool) && Provenance(es, s) && Enabled(s, Event.Remove)
    ensures Provenance(es, Step(s, Event.Remove))
  {
    forall id | id in Step(s, Event.Remove).pool.tx
      ensures Submitted(es, Step(s, Event.Remove).pool.tx[id])
    {
      RemoveKeepsTx(s.pool, Ids(s.op.txs), id);
    }
  }

  lemma SealProvenance(es: seq<Event>, s: NodeState, timestamp: i64)
    requires Provenance(es, s) && Enabled(s, Event.Seal(timestamp))
    ensures Provenance(es, Step(s, Event.Seal(timestamp)))
  {
    var b := SealedBlock(s.op.txs, s.op.prev, s.data, timestamp);
    StoredBlockSubmitted(es, s.blocks, b.header.height, b);
    var s' := Step(s, Event.Seal(timestamp));
    assert s'.pool == s.pool && (s'.op.Idle? || s'.op.txs == s.op.txs);
  }

  lemma StepProvenance(es: seq<Event>, s: NodeState, e: Event)
    requires Agrees(s.pool) && Provenance(es, s) && Enabled(s, e)
    ensures Provenance(es + [e], Step(s, e))
  {
    ProvenanceLater(es, e, s);
    match e
    case Submit(t, randomId) => SubmitProvenance(es, s, t, randomId);
    case List(now, txs, _) => ListingProvenance(es + [e], s.pool, now, txs);
    case Seal(timestamp) => SealProvenance(es + [e], s, timestamp);
    case Remove => RemoveProvenance(es + [e], s);
    case _ =>
  }

  lemma StepPoolAgrees(s: NodeState, e: Event)
    requires Agrees(s.pool) && Enabled(s, e)
    ensures Agrees(Step(s, e).pool)
  {
    match e
    case Submit(t, randomId) => AddAgrees(s.pool, if t.id == [] then t.(id := randomId) else t);
    case Remove => RemoveAgrees(s.pool, Ids(s.op.txs));
    case _ =>
  }

  lemma {:induction false} RunPoolAgrees(es: seq<Event>)
    requires CanRun(NEW_NODE, es)
    ensures Agrees(Run(NEW_NODE, es).pool)
  {
    if es == [] {
      NewNodeInv();
    } else {
      RunPoolAgrees(es[..|es| - 1]);
      StepPoolAgrees(Run(NEW_NODE, es[..|es| - 1]), es[|es| - 1]);
    }
  }

  /** No transaction enters the chain that was not submitted, with every field as submitted. */
  lemma {:induction false} CommittedWereSubmitted(es: seq<Event>)
    requires CanRun(NEW_NODE, es)
    ensures Provenance(es, Run(NEW_NODE, es))
  {
    if es != [] {
      var init, e := es[..|es| - 1], es[|es| - 1];
      CommittedWereSubmitted(init);
      RunPoolAgrees(init);
      StepProvenance(init, Run(NEW_NODE, init), e);
      assert es == init + [e];
    }
  }

  // ----- What is stored

  /** The name of the proposer, in characters. */
  lemma {:induction false} ProposerName()
    ensures |PROPOSER| == |"validator-1"| && forall i :: 0 <= i < |PROPOSER| ==> PROPOSER[i] == "validator-1"[i] as int
  {
  }

  lemma StepKeepsBlock(s: NodeState, e: Event, h: u64)
    requires Enabled(s, e)
    ensures h in s.blocks ==> h in Step(s, e).blocks && Step(s, e).blocks[h] == s.blocks[h]
    ensures h !in s.blocks && h in Step(s, e).blocks ==>
              && e.Seal? && var b := Step(s, e).blocks[h];
              && b == SealedBlock(s.op.txs, s.op.prev, s.data, e.timestamp) && b.header.height == h
  {
  }

  /** The `i`-th step of a run stores the block at `h`. */
  ghost predicate StoresAt(es: seq<Event>, i: nat, h: u64)
    requires i < |es|
  {
    && CanRun(NEW_NODE, es[..i]) && h !in Run(NEW_NODE, es[..i]).blocks
    && CanRun(NEW_NODE, es[..i + 1]) && h in Run(NEW_NODE, es[..i + 1]).blocks
  }

  /**
    Every block in the store of a reachable node was put there by a seal and has its time, view 0, version 1, the
    hash of its header, no votes, and the transactions that the operation had listed.
   */
  lemma {:induction false} StoredBlocks(es: seq<Event>, h: u64)
    requires CanRun(NEW_NODE, es) && h in Run(NEW_NODE, es).blocks
    ensures exists i :: 0 <= i < |es| && es[i].Seal? && StoresAt(es, i, h) &&
              var b, op := Run(NEW_NODE, es).blocks[h], Run(NEW_NODE, es[..i]).op;
              && b.header.timestamp == es[i].timestamp && b.header.height == h
              && b.header.view == 0 && b.header.version == 1 && b.commit == []
              && b.header.proposer == PROPOSER && b.hash == HeaderHash(b.header)
              && op.Applying? && b.transactions == op.txs && b.header.prevHash == op.prev.hash
  {
    var init, e := es[..|es| - 1], es[|es| - 1];
    var s := Run(NEW_NODE, init);
    StepKeepsBlock(s, e, h);
    if h in s.blocks {
      StoredBlocks(init, h);
      var i :| 0 <= i < |init| && init[i].Seal? && StoresAt(init, i, h) &&
        var b, op := s.blocks[h], Run(NEW_NODE, init[..i]).op;
        && b.header.timestamp == init[i].timestamp && b.header.height == h
        && b.header.view == 0 && b.header.version == 1 && b.commit == []
        && b.header.proposer == PROPOSER && b.hash == HeaderHash(b.header)
        && op.Applying? && b.transactions == op.txs && b.header.prevHash == op.prev.hash;
      assert init[..i] == es[..i] && init[..i + 1] == es[..i + 1] && init[i] == es[i];
      assert StoresAt(es, i, h);
    } else {
      assert es[..|es| - 1 + 1] == es;
      assert StoresAt(es, |es| - 1, h);
    }
  }

  lemma StepKeepsPoolSize(s: NodeState, e: Event)
    requires Enabled(s, e)
    ensures Step(s, e).pool.max == s.pool.max
  {
    match e
    case Remove => RemoveKeepsMax(s.pool, Ids(s.op.txs));
    case _ =>
  }

  lemma {:induction false} RemoveKeepsMax(p: Pending, ids: seq<str>)
    ensures AfterRemove(p, ids).max == p.max
  {
    if ids != [] {
      RemoveKeepsMax(p, ids[..|ids| - 1]);
    }
  }

  lemma {:induction false} RunKeepsPoolSize(es: seq<Event>)
    requires CanRun(NEW_NODE, es)
    ensures Run(NEW_NODE, es).pool.max == 1000
  {
    if es != [] {
      RunKeepsPoolSize(es[..|es| - 1]);
      StepKeepsPoolSize(Run(NEW_NODE, es[..|es| - 1]), es[|es| - 1]);
    }
  }

  /** The pool of a node never holds more than a thousand transactions. */
  lemma {:induction false} PoolStaysSmall(es: seq<Event>)
    requires CanRun(NEW_NODE, es)
    ensures |Run(NEW_NODE, es).pool.tx| <= 1000
  {
    RunPoolAgrees(es);
    RunKeepsPoolSize(es);
  }

  /** What a snapshot request stores, under the height of the latest block. */
  lemma {:induction false} SnapshotIsTaken(s: NodeState, id: str, tip: Block)
    requires Inv(s) && Enabled(s, TakeSnapshot(id, tip))
    ensures var t, h := Step(s, TakeSnapshot(id, tip)), |s.blocks|;
      && t.snaps == s.snaps[id := ChainTypes.Snapshot(id, tip.header.height, RootOf(s.data), s.data, false)]
      && tip.header.height == h && h in t.versions && t.versions[h] == s.data
      && t.data == s.data && t.blocks == s.blocks && t.pool == s.pool && t.op == s.op
  {
    TakenSnapshotReplays(s.blocks, s.data, id, tip);
  }

  // ----- The data in terms of the committed transactions

  predicate Writes(t: Tx, k: str) {
    t.gas != 0 && t.key != [] && t.key == k
  }

  /** The write to `k` by the `i`-th transaction at `h` is the last one in the chain. */
  ghost predicate LastWrite(blocks: Blocks, h: u64, i: nat, k: str) {
    && h in blocks && h > 0 && i < |blocks[h].transactions| && Writes(blocks[h].transactions[i], k)
    && (forall j :: i < j < |blocks[h].transactions| ==> !Writes(blocks[h].transactions[j], k))
    && forall g, j :: g in blocks && g > h && 0 <= j < |blocks[g].transactions| ==>
                        !Writes(blocks[g].transactions[j], k)
  }

  lemma {:induction false} ReplayHoldsLastWrite(blocks: Blocks, n: nat, h: u64, i: nat, k: str)
    requires h <= n < TWO_TO_64 && LastWrite(blocks, h, i, k)
    ensures k in Replay(blocks, n) && Replay(blocks, n)[k] == blocks[h].transactions[i].value
  {
    if n == h {
      ApplyAllKeepsLastWrite(Replay(blocks, n - 1), blocks[h].transactions, i);
    } else {
      ReplayHoldsLastWrite(blocks, n - 1, h, i, k);
      if n in blocks {
        ApplyAllKeepsUnwritten(Replay(blocks, n - 1), blocks[n].transactions, k);
      }
    }
  }

  lemma {:induction false} ReplayLacksUnwritten(blocks: Blocks, n: nat, k: str)
    requires forall h, j :: h in blocks && 0 <= j < |blocks[h].transactions| ==> !Writes(blocks[h].transactions[j], k)
    ensures k !in Replay(blocks, n)
  {
    if n > 0 && n < TWO_TO_64 {
      ReplayLacksUnwritten(blocks, n - 1, k);
      if n in blocks {
        ApplyAllKeepsUnwritten(Replay(blocks, n - 1), blocks[n].transactions, k);
      }
    }
  }

  lemma {:induction false} ApplyAllHoldsWritten(d: Data, txs: seq<Tx>, k: str)
    requires k in d || exists j :: 0 <= j < |txs| && Writes(txs[j], k)
    ensures k in ApplyAll(d, txs)
  {
    if txs != [] && !Writes(txs[|txs| - 1], k) {
      var init := txs[..|txs| - 1];
      if k !in d {
        var j :| 0 <= j < |txs| && Writes(txs[j], k);
        assert Writes(init[j], k);
      }
      ApplyAllHoldsWritten(d, init, k);
    }
  }

  lemma {:induction false} ReplayHoldsWritten(blocks: Blocks, n: nat, h: u64, j: nat, k: str)
    requires h in blocks && 0 < h <= n < TWO_TO_64
    requires j < |blocks[h].transactions| && Writes(blocks[h].transactions[j], k)
    ensures k in Replay(blocks, n)
  {
    if n > h {
      ReplayHoldsWritten(blocks, n - 1, h, j, k);
    }
    if n in blocks {
      ApplyAllHoldsWritten(Replay(blocks, n - 1), blocks[n].transactions, k);
    }
  }

  ghost predicate Written(blocks: Blocks, k: str) {
    exists h, j :: h in blocks && 0 <= j < |blocks[h].transactions| && Writes(blocks[h].transactions[j], k)
  }

  /** Between operations the keys are those of the committed writes, each with the value of the last one. */
  lemma {:induction false} LiveDataIsLastWrites(es: seq<Event>, k: str)
    requires CanRun(NEW_NODE, es) && |Run(NEW_NODE, es).blocks| < TWO_TO_64 && Run(NEW_NODE, es).op.Idle?
    ensures k in Run(NEW_NODE, es).data <==> Written(Run(NEW_NODE, es).blocks, k)
    ensures var s := Run(NEW_NODE, es);
      forall h, i: nat :: LastWrite(s.blocks, h, i, k) ==>
                            k in s.data && s.data[k] == s.blocks[h].transactions[i].value
  {
    var s := Run(NEW_NODE, es);
    LiveDataIsReplay(es);
    ReachableChainVerifies(es);
    forall h, i: nat | LastWrite(s.blocks, h, i, k)
      ensures k in s.data && s.data[k] == s.blocks[h].transactions[i].value
    {
      ReplayHoldsLastWrite(s.blocks, |s.blocks|, h, i, k);
    }
    if Written(s.blocks, k) {
      var h, j :| h in s.blocks && 0 <= j < |s.blocks[h].transactions| && Writes(s.blocks[h].transactions[j], k);
      ReplayHoldsWritten(s.blocks, |s.blocks|, h, j, k);
    } else {
      ReplayLacksUnwritten(s.blocks, |s.blocks|, k);
    }
  }

  // ----- What the invariant gives

  lemma SnapshotRootMatches(snap: ChainTypes.Snapshot, data: Data)
    requires snap.root == RootOf(snap.data)
    requires Readable(data, EQUALS, SEMICOLON) && Readable(snap.data, EQUALS, SEMICOLON)
    requires CollisionFree({RootBytes(snap.data)}, {RootBytes(data)})
    ensures snap.root == RootOf(data) <==> snap.data == data
  {
    RootBindsData(snap.data, data);
  }

  lemma VerifyOutcome(s: NodeState, id: str)
    requires Enabled(s, VerifySnapshot(id)) && id != [] && id in s.snaps && s.snaps[id].id == id
    ensures id in Step(s, VerifySnapshot(id)).snaps
    ensures Step(s, VerifySnapshot(id)).snaps[id].verified <==> s.snaps[id].root == RootOf(s.data)
  {
  }

  /** The store of a reachable node passes `VerifyChain` and holds heights 1 to n, under their own heights. */
  lemma {:induction false} ReachableChainVerifies(es: seq<Event>)
    requires CanRun(NEW_NODE, es) && |Run(NEW_NODE, es).blocks| < TWO_TO_64
    ensures var blocks := Run(NEW_NODE, es).blocks;
      && Accepted(blocks) && Keyed(blocks) && (forall h :: h in blocks <==> 1 <= h <= |blocks|)
      && (1 in blocks ==> blocks[1].header.prevHash == [])
  {
    ReachableStatesReplay(es);
    AcceptedHeights(Run(NEW_NODE, es).blocks);
    var blocks := Run(NEW_NODE, es).blocks;
    assert 1 in blocks ==> BlockReplays(blocks, 1);
  }

  /** Between operations the live data is what replaying every committed block gives. */
  lemma {:induction false} LiveDataIsReplay(es: seq<Event>)
    requires CanRun(NEW_NODE, es) && |Run(NEW_NODE, es).blocks| < TWO_TO_64
    ensures var s := Run(NEW_NODE, es); s.op.Idle? ==> s.data == Replay(s.blocks, |s.blocks|)
  {
    ReachableStatesReplay(es);
  }

  /** Each block commits to the data after the transactions of all blocks up to and including it. */
  lemma {:induction false} StateRootsAreReplays(es: seq<Event>, h: u64)
    requires CanRun(NEW_NODE, es) && |Run(NEW_NODE, es).blocks| < TWO_TO_64
    ensures var blocks := Run(NEW_NODE, es).blocks;
      h in blocks ==> blocks[h].header.stateRoot == RootOf(Replay(blocks, h))
  {
    ReachableStatesReplay(es);
    if h in Run(NEW_NODE, es).blocks {
      assert BlockReplays(Run(NEW_NODE, es).blocks, h);
    }
  }

  /** Each snapshot holds the data and root of the replay to its height, however the chain grew since. */
  lemma {:induction false} SnapshotsAreReplays(es: seq<Event>, id: str)
    requires CanRun(NEW_NODE, es) && |Run(NEW_NODE, es).blocks| < TWO_TO_64
    ensures var s := Run(NEW_NODE, es);
      id in s.snaps ==>
        && s.snaps[id].height <= |s.blocks|
        && s.snaps[id].data == Replay(s.blocks, s.snaps[id].height)
        && s.snaps[id].root == RootOf(s.snaps[id].data)
  {
    ReachableStatesReplay(es);
    var s := Run(NEW_NODE, es);
    if id in s.snaps {
      assert SnapshotReplays(s.blocks, id, s.snaps[id]);
    }
  }

  /** `PutBlock` inside a mine operation finds its height free, so the operation commits. */
  lemma {:induction false} MinedBlockIsStored(es: seq<Event>, timestamp: i64)
    requires CanRun(NEW_NODE, es) && |Run(NEW_NODE, es).blocks| < TWO_TO_64
    requires Enabled(Run(NEW_NODE, es), Seal(timestamp))
    ensures var s := Run(NEW_NODE, es);
      var b := SealedBlock(s.op.txs, s.op.prev, s.data, timestamp);
      && b.header.height !in s.blocks
      && Step(s, Seal(timestamp)) == s.(blocks := s.blocks[b.header.height := b], op := Sealed(s.op.txs))
  {
    var s := Run(NEW_NODE, es);
    ReachableStatesReplay(es);
    if |s.blocks| == TWO_TO_64 - 1 {
      SealNeedsRoom(s, timestamp);
    } else {
      SealKeepsInv(s, timestamp);
    }
  }

  /** Whatever the data holds, `snapVerify` answers yes exactly when both replays are written alike under the root. */
  lemma {:induction false} VerifiedMeansSameForm(es: seq<Event>, id: str)
    requires CanRun(NEW_NODE, es) && |Run(NEW_NODE, es).blocks| < TWO_TO_64
    requires Run(NEW_NODE, es).op.Idle? && id != [] && id in Run(NEW_NODE, es).snaps
    requires var s := Run(NEW_NODE, es); CollisionFree({RootBytes(s.snaps[id].data)}, {RootBytes(s.data)})
    ensures var s := Run(NEW_NODE, es);
      var t := Step(s, VerifySnapshot(id));
      id in t.snaps &&
      (t.snaps[id].verified <==>
       RootBytes(Replay(s.blocks, s.snaps[id].height)) == RootBytes(Replay(s.blocks, |s.blocks|)))
  {
    ReachableStatesReplay(es);
    var s := Run(NEW_NODE, es);
    assert SnapshotReplays(s.blocks, id, s.snaps[id]);
    VerifyOutcome(s, id);
  }

  lemma {:induction false} VerifiedMeansCurrentState(s: NodeState, id: str)
    requires Inv(s) && s.op.Idle? && id != [] && id in s.snaps
    requires Readable(s.data, EQUALS, SEMICOLON) && Readable(s.snaps[id].data, EQUALS, SEMICOLON)
    requires CollisionFree({RootBytes(s.snaps[id].data)}, {RootBytes(s.data)})
    ensures id in Step(s, VerifySnapshot(id)).snaps
    ensures Step(s, VerifySnapshot(id)).snaps[id].verified <==>
            Replay(s.blocks, s.snaps[id].height) == Replay(s.blocks, |s.blocks|)
  {
    assert SnapshotReplays(s.blocks, id, s.snaps[id]);
    SnapshotRootMatches(s.snaps[id], s.data);
    VerifyOutcome(s, id);
  }

  /** `snapVerify` answers yes exactly for snapshots of the data the node holds now. */
  lemma {:induction false} VerifiedMeansCurrent(es: seq<Event>, id: str)
    requires CanRun(NEW_NODE, es) && |Run(NEW_NODE, es).blocks| < TWO_TO_64
    requires Run(NEW_NODE, es).op.Idle? && id != [] && id in Run(NEW_NODE, es).snaps
    requires var s := Run(NEW_NODE, es);
      Readable(s.data, EQUALS, SEMICOLON) && Readable(s.snaps[id].data, EQUALS, SEMICOLON)
    requires var s := Run(NEW_NODE, es); CollisionFree({RootBytes(s.snaps[id].data)}, {RootBytes(s.data)})
    ensures var s := Run(NEW_NODE, es);
      var t := Step(s, VerifySnapshot(id));
      id in t.snaps &&
      (t.snaps[id].verified <==> Replay(s.blocks, s.snaps[id].height) == Replay(s.blocks, |s.blocks|))
  {
    ReachableStatesReplay(es);
    VerifiedMeansCurrentState(Run(NEW_NODE, es), id);
  }

  ghost predicate BarFreeTransactions(blocks: Blocks) {
    forall h, i :: h in blocks && 0 <= i < |blocks[h].transactions| ==> TxBarFree(blocks[h].transactions[i])
  }

  lemma ProposerHasNoBar()
    ensures BAR !in PROPOSER
  {
  }

  lemma ReachableChainIsWellLinked(blocks: Blocks)
    requires ChainReplays(blocks)
    ensures WellLinked(blocks)
  {
    ProposerHasNoBar();
    forall h | h in blocks
      ensures BAR !in blocks[h].header.stateRoot && BAR !in blocks[h].header.proposer
      ensures h == 1 ==> BAR !in blocks[h].header.prevHash
    {
      assert BlockReplays(blocks, h);
      DigestHasNoBar(blocks[h].header.stateRoot);
    }
  }

  lemma MinedTransactionsAreDistinct(b: Block)
    requires DistinctIds(b.transactions)
    requires forall i :: 0 <= i < |b.transactions| ==> BAR !in b.transactions[i].id
    ensures DistinctTransactions(b)
  {
    var s := TxStrings(b.transactions);
    forall i, j | 0 <= i < j < |s|
      ensures s[i] != s[j]
    {
      if s[i] == s[j] {
        TxBytesFixId(b.transactions[i], b.transactions[j]);
      }
    }
  }

  lemma {:induction false} SameWritesSameData(d: Data, a: seq<Tx>, b: seq<Tx>)
    requires |a| == |b| && forall i :: 0 <= i < |a| ==> SameHashedFields(a[i], b[i])
    ensures ApplyAll(d, a) == ApplyAll(d, b)
  {
    if a != [] {
      SameWritesSameData(d, a[..|a| - 1], b[..|b| - 1]);
    }
  }

  lemma SameStringsSameFields(a: seq<Tx>, b: seq<Tx>)
    requires TxStrings(a) == TxStrings(b)
    requires forall i :: 0 <= i < |a| ==> TxBarFree(a[i])
    requires forall i :: 0 <= i < |b| ==> TxBarFree(b[i])
    ensures |a| == |b| && forall i :: 0 <= i < |a| ==> SameHashedFields(a[i], b[i])
  {
    assert |a| == |TxStrings(a)| == |b|;
    forall i | 0 <= i < |a|
      ensures SameHashedFields(a[i], b[i])
    {
      assert TxStrings(a)[i] == TxStrings(b)[i];
      TxBytesInjective(a[i], b[i]);
    }
  }

  lemma SameBlockSameData(d: Data, x: Block, y: Block)
    requires BlocksAgree(x, y) && DistinctIds(x.transactions) && DistinctIds(y.transactions)
    requires forall i :: 0 <= i < |x.transactions| ==> TxBarFree(x.transactions[i])
    requires forall i :: 0 <= i < |y.transactions| ==> TxBarFree(y.transactions[i])
    ensures ApplyAll(d, x.transactions) == ApplyAll(d, y.transactions)
  {
    MinedTransactionsAreDistinct(x);
    MinedTransactionsAreDistinct(y);
    SameStringsSameFields(x.transactions, y.transactions);
    SameWritesSameData(d, x.transactions, y.transactions);
  }

  lemma {:induction false} AgreeingBlocksApplyAlike(a: Blocks, b: Blocks, n: u64, d: Data)
    requires n in a && n in b && BlocksAgree(a[n], b[n])
    requires ChainReplays(a) && ChainReplays(b) && BarFreeTransactions(a) && BarFreeTransactions(b)
    ensures ApplyAll(d, a[n].transactions) == ApplyAll(d, b[n].transactions)
  {
    assert BlockReplays(a, n) && BlockReplays(b, n);
    SameBlockSameData(d, a[n], b[n]);
  }

  ghost predicate ApplyAlike(a: Blocks, b: Blocks) {
    && a.Keys == b.Keys
    && forall h, d :: h in a ==> ApplyAll(d, a[h].transactions) == ApplyAll(d, b[h].transactions)
  }

  lemma {:induction false} AlikeChainsReplayAlike(a: Blocks, b: Blocks, n: nat)
    requires ApplyAlike(a, b)
    ensures Replay(a, n) == Replay(b, n)
  {
    if n > 0 {
      AlikeChainsReplayAlike(a, b, n - 1);
    }
  }

  lemma {:induction false} AgreeingChainsApplyAlike(a: Blocks, b: Blocks)
    requires a.Keys == b.Keys && forall h :: h in a ==> BlocksAgree(a[h], b[h])
    requires ChainReplays(a) && ChainReplays(b) && BarFreeTransactions(a) && BarFreeTransactions(b)
    ensures ApplyAlike(a, b)
  {
    forall h, d | h in a
      ensures ApplyAll(d, a[h].transactions) == ApplyAll(d, b[h].transactions)
    {
      AgreeingBlocksApplyAlike(a, b, h, d);
    }
  }

  lemma {:induction false} SameTipSameState(s: NodeState, t: NodeState)
    requires Inv(s) && Inv(t) && s.op.Idle? && t.op.Idle?
    requires Tip(s.blocks).hash == Tip(t.blocks).hash
    requires BarFreeTransactions(s.blocks) && BarFreeTransactions(t.blocks)
    requires CollisionFree(ChainHashed(s.blocks), ChainHashed(t.blocks))
    ensures s.blocks.Keys == t.blocks.Keys && s.data == t.data
    ensures forall h :: h in s.blocks ==> s.blocks[h].header == t.blocks[h].header
  {
    ReachableChainIsWellLinked(s.blocks);
    ReachableChainIsWellLinked(t.blocks);
    LinkedHistoriesAgree(s.blocks, t.blocks);
    assert |s.blocks.Keys| == |t.blocks.Keys|;
    AgreeingChainsApplyAlike(s.blocks, t.blocks);
    AlikeChainsReplayAlike(s.blocks, t.blocks, |s.blocks|);
  }

  /**
    Agreement: two idle nodes, whatever happened to them, that report the same tip hash hold the same chain of
    headers and the same data, unless a string one of them hashed collides with one the other hashed.
   */
  lemma {:induction false} SameTipSameData(es: seq<Event>, fs: seq<Event>)
    requires CanRun(NEW_NODE, es) && |Run(NEW_NODE, es).blocks| < TWO_TO_64
    requires CanRun(NEW_NODE, fs) && |Run(NEW_NODE, fs).blocks| < TWO_TO_64
    requires Run(NEW_NODE, es).op.Idle? && Run(NEW_NODE, fs).op.Idle?
    requires Tip(Run(NEW_NODE, es).blocks).hash == Tip(Run(NEW_NODE, fs).blocks).hash
    requires BarFreeTransactions(Run(NEW_NODE, es).blocks) && BarFreeTransactions(Run(NEW_NODE, fs).blocks)
    requires CollisionFree(ChainHashed(Run(NEW_NODE, es).blocks), ChainHashed(Run(NEW_NODE, fs).blocks))
    ensures var s, t := Run(NEW_NODE, es), Run(NEW_NODE, fs);
      && s.data == t.data && s.blocks.Keys == t.blocks.Keys
      && forall h :: h in s.blocks ==> s.blocks[h].header == t.blocks[h].header
  {
    ReachableStatesReplay(es);
    ReachableStatesReplay(fs);
    SameTipSameState(Run(NEW_NODE, es), Run(NEW_NODE, fs));
  }

  lemma {:induction false} IdleRoot(s: NodeState)
    requires Inv(s) && s.op.Idle?
    ensures |s.blocks| == 0 ==> s.data == map[]
    ensures |s.blocks| > 0 ==> RootOf(s.data) == Tip(s.blocks).header.stateRoot
  {
    if |s.blocks| > 0 {
      TipIsStored(s.blocks);
      TipHeight(s.blocks);
      assert BlockReplays(s.blocks, |s.blocks|);
    }
  }

  lemma {:induction false} SameTipSameRootState(s: NodeState, t: NodeState)
    requires Inv(s) && Inv(t) && s.op.Idle? && t.op.Idle?
    requires Tip(s.blocks).hash == Tip(t.blocks).hash
    requires CollisionFree(ChainHashed(s.blocks), ChainHashed(t.blocks))
    ensures HistoriesAgree(s.blocks, t.blocks) && RootOf(s.data) == RootOf(t.data)
  {
    ReachableChainIsWellLinked(s.blocks);
    ReachableChainIsWellLinked(t.blocks);
    LinkedHistoriesAgree(s.blocks, t.blocks);
    assert |s.blocks.Keys| == |t.blocks.Keys|;
    IdleRoot(s);
    IdleRoot(t);
    if |s.blocks| > 0 {
      TipIsStored(s.blocks);
      TipIsStored(t.blocks);
      assert BlocksAgree(s.blocks[|s.blocks|], t.blocks[|t.blocks|]);
    }
  }

  /**
    Agreement by the committed state roots, whatever the transactions hold: one tip hash means one history and one
    state root, and the same data where it can be read back from what is hashed for the root.
   */
  lemma {:induction false} SameTipSameRoot(es: seq<Event>, fs: seq<Event>)
    requires CanRun(NEW_NODE, es) && |Run(NEW_NODE, es).blocks| < TWO_TO_64
    requires CanRun(NEW_NODE, fs) && |Run(NEW_NODE, fs).blocks| < TWO_TO_64
    requires Run(NEW_NODE, es).op.Idle? && Run(NEW_NODE, fs).op.Idle?
    requires Tip(Run(NEW_NODE, es).blocks).hash == Tip(Run(NEW_NODE, fs).blocks).hash
    requires CollisionFree(ChainHashed(Run(NEW_NODE, es).blocks), ChainHashed(Run(NEW_NODE, fs).blocks))
    ensures var s, t := Run(NEW_NODE, es), Run(NEW_NODE, fs);
      HistoriesAgree(s.blocks, t.blocks) && RootOf(s.data) == RootOf(t.data)
    ensures var s, t := Run(NEW_NODE, es), Run(NEW_NODE, fs);
      CollisionFree({RootBytes(s.data)}, {RootBytes(t.data)}) ==>
        && RootBytes(s.data) == RootBytes(t.data)
        && (Readable(s.data, EQUALS, SEMICOLON) && Readable(t.data, EQUALS, SEMICOLON) ==> s.data == t.data)
  {
    ReachableStatesReplay(es);
    ReachableStatesReplay(fs);
    var s, t := Run(NEW_NODE, es), Run(NEW_NODE, fs);
    SameTipSameRootState(s, t);
    if && Readable(s.data, EQUALS, SEMICOLON) && Readable(t.data, EQUALS, SEMICOLON)
       && CollisionFree({RootBytes(s.data)}, {RootBytes(t.data)}) {
      RootBindsData(s.data, t.data);
    }
  }

  // ----- A snapshot that verifies although the data has changed

  /** `d` reads as two entries, `c` as one whose value holds the other. */
  ghost predicate Mimics(c: Data, d: Data, k: str, v: str, l: str, w: str) {
    Less(k, l) && c == map[k := v + [SEMICOLON] + l + [EQUALS] + w] && d == map[k := v, l := w]
  }

  lemma {:induction false} MimicsCollide(c: Data, d: Data, k: str, v: str, l: str, w: str)
    requires Mimics(c, d, k, v, l, w)
    ensures c != d && RootOf(c) == RootOf(d)
  {
    LessIrreflexive(k);
    UnreadableValuesCollide(d, c, k, l);
  }

  lemma {:induction false} StaleSnapshotVerifies(s: NodeState, id: str, k: str, v: str, l: str, w: str)
    requires OperationReplays(s) && s.op.Idle?
    requires id != [] && id in s.snaps && SnapshotReplays(s.blocks, id, s.snaps[id])
    requires Mimics(s.snaps[id].data, s.data, k, v, l, w)
    ensures id in Step(s, VerifySnapshot(id)).snaps && Step(s, VerifySnapshot(id)).snaps[id].verified
    ensures Replay(s.blocks, s.snaps[id].height) != Replay(s.blocks, |s.blocks|)
  {
    MimicsCollide(s.snaps[id].data, s.data, k, v, l, w);
    VerifyOutcome(s, id);
  }

  // ----- Such a snapshot can be taken

  ghost predicate Reached(s: NodeState) {
    exists es :: CanRun(NEW_NODE, es) && Run(NEW_NODE, es) == s
  }

  lemma ReachedNext(s: NodeState, e: Event)
    requires Reached(s) && Enabled(s, e)
    ensures Reached(Step(s, e))
  {
    var es :| CanRun(NEW_NODE, es) && Run(NEW_NODE, es) == s;
    assert (es + [e])[..|es|] == es;
    assert CanRun(NEW_NODE, es + [e]) && Run(NEW_NODE, es + [e]) == Step(s, e);
  }

  /** Nothing is pending but `t`, which never expires. */
  ghost predicate Holds(s: NodeState, t: Tx) {
    s.pool.tx == map[t.id := t] && s.pool.max == POOL_SIZE && t.expiresAt == 0
  }

  /** Between operations, with nothing pending. */
  ghost predicate Quiet(s: NodeState) {
    s.op.Idle? && s.pool.tx == map[] && s.pool.max == POOL_SIZE
  }

  lemma AddToEmpty(p: Pending, t: Tx)
    requires Agrees(p) && p.tx == map[] && p.max == POOL_SIZE && t.id != []
    ensures AfterAdd(p, t).tx == map[t.id := t] && AfterAdd(p, t).max == POOL_SIZE
  {
    assert Slot(p, t.from, t.nonce).None?;
    assert AddFault(p, t).None?;
  }

  lemma ReachedInv(s: NodeState)
    requires Reached(s) && |s.blocks| < TWO_TO_64
    ensures Inv(s)
  {
    var es :| CanRun(NEW_NODE, es) && Run(NEW_NODE, es) == s;
    ReachableStatesReplay(es);
  }

  lemma SubmitOne(s: NodeState, t: Tx) returns (r: NodeState)
    requires Reached(s) && Quiet(s) && |s.blocks| < TWO_TO_32 && t.id != [] && t.expiresAt == 0
    ensures Reached(r) && Holds(r, t) && r == s.(pool := r.pool)
  {
    ReachedInv(s);
    AddToEmpty(s.pool, t);
    ReachedNext(s, Submit(t, []));
    r := Step(s, Submit(t, []));
  }

  lemma SoleListing(tx: map<str, Tx>, t: Tx)
    requires tx == map[t.id := t] && t.expiresAt == 0
    ensures IsListing(tx, 0, [t])
  {
    assert t.id in tx && tx[t.id] == t;
    assert Live(tx, tx.Keys, 0) == {t};
  }

  lemma TipIsLatest(blocks: Blocks)
    requires Keyed(blocks) && Accepted(blocks)
    ensures IsLatest(blocks, Tip(blocks))
  {
    AcceptedHeights(blocks);
    TipHeight(blocks);
  }

  lemma ListOne(s: NodeState, t: Tx) returns (r: NodeState)
    requires Reached(s) && s.op.Idle? && Holds(s, t) && |s.blocks| < TWO_TO_32
    ensures Reached(r) && r == s.(op := Applying([t], Tip(s.blocks), 0))
  {
    ReachedInv(s);
    SoleListing(s.pool.tx, t);
    TipIsLatest(s.blocks);
    ReachedNext(s, List(0, [t], Tip(s.blocks)));
    r := Step(s, List(0, [t], Tip(s.blocks)));
  }

  lemma ApplyOne(s: NodeState, t: Tx) returns (r: NodeState)
    requires Reached(s) && s.op.Applying? && s.op.txs == [t] && s.op.applied == 0 && Applies(t)
    ensures Reached(r) && r == s.(data := s.data[t.key := t.value], op := s.op.(applied := 1))
  {
    ReachedNext(s, ApplyNext);
    r := Step(s, ApplyNext);
  }

  lemma SealShape(s: NodeState, timestamp: i64)
    requires Enabled(s, Seal(timestamp)) && Step(s, Seal(timestamp)).op == Sealed(s.op.txs)
    ensures Step(s, Seal(timestamp)) == s.(blocks := Step(s, Seal(timestamp)).blocks, op := Sealed(s.op.txs))
  {
  }

  lemma SealOne(s: NodeState, t: Tx) returns (r: NodeState)
    requires Reached(s) && s.op.Applying? && s.op.txs == [t] && s.op.applied == 1 && |s.blocks| < TWO_TO_32
    ensures Reached(r) && r == s.(blocks := r.blocks, op := Sealed([t])) && |r.blocks| == |s.blocks| + 1
  {
    ReachedInv(s);
    ReachedNext(s, Seal(0));
    r := Step(s, Seal(0));
    SealKeepsInv(s, 0);
    SealShape(s, 0);
  }

  lemma RemoveOnlyTx(p: Pending, t: Tx)
    requires p.tx == map[t.id := t]
    ensures AfterRemove(p, Ids([t])).tx == map[] && AfterRemove(p, Ids([t])).max == p.max
  {
    assert Ids([t]) == [t.id] && [t.id][..0] == [];
    assert AfterRemove(p, [t.id]) == Mempool.RemoveOne(p, t.id);
  }

  lemma ClearOne(s: NodeState, t: Tx) returns (r: NodeState)
    requires Reached(s) && s.op == Sealed([t]) && Holds(s, t)
    ensures Reached(r) && Quiet(r) && r == s.(pool := r.pool, op := Idle)
  {
    RemoveOnlyTx(s.pool, t);
    ReachedNext(s, Event.Remove);
    r := Step(s, Event.Remove);
  }

  /** One transaction, submitted and mined. */
  lemma {:induction false} MineOne(s: NodeState, t: Tx) returns (r: NodeState)
    requires Reached(s) && Quiet(s) && |s.blocks| < TWO_TO_32
    requires t.id != [] && t.expiresAt == 0 && Applies(t)
    ensures Reached(r) && Quiet(r)
    ensures r.data == s.data[t.key := t.value] && r.snaps == s.snaps && |r.blocks| == |s.blocks| + 1
  {
    r := SubmitOne(s, t);
    r := ListOne(r, t);
    r := ApplyOne(r, t);
    r := SealOne(r, t);
    r := ClearOne(r, t);
  }

  lemma SnapOne(s: NodeState, id: str) returns (r: NodeState)
    requires Reached(s) && s.op.Idle? && |s.blocks| < TWO_TO_32
    ensures Reached(r) && r == s.(snaps := r.snaps, versions := r.versions)
    ensures id in r.snaps && r.snaps[id].data == s.data
  {
    ReachedInv(s);
    TipIsLatest(s.blocks);
    ReachedNext(s, TakeSnapshot(id, Tip(s.blocks)));
    r := Step(s, TakeSnapshot(id, Tip(s.blocks)));
  }

  function Write(key: str, value: str, nonce: u64): Tx {
    Tx([1], [1], [1], nonce, 0, 1, key, value, 0, 0, [])
  }

  lemma NewNodeReached()
    ensures Reached(NEW_NODE) && Quiet(NEW_NODE)
  {
    assert CanRun(NEW_NODE, []) && Run(NEW_NODE, []) == NEW_NODE;
  }

  lemma TwoWrites(k: str, x: str, v: str, l: str, w: str)
    requires Less(k, l)
    ensures var d: Data := map[]; d[k := x] == map[k := x]
    ensures var d: Data := map[k := x]; d[k := v][l := w] == map[k := v, l := w]
  {
    LessIrreflexive(k);
  }

  /** A run of three blocks leads to such a snapshot, for any two keys and any values. */
  lemma {:induction false} StaleSnapshotIsReachable(id: str, k: str, v: str, l: str, w: str) returns (s: NodeState)
    requires id != [] && k != [] && Less(k, l)
    ensures Reached(s) && s.op.Idle? && id in s.snaps && s.data == map[k := v, l := w]
    ensures id in Step(s, VerifySnapshot(id)).snaps && Step(s, VerifySnapshot(id)).snaps[id].verified
    ensures Replay(s.blocks, s.snaps[id].height) != Replay(s.blocks, |s.blocks|)
  {
    NewNodeReached();
    var joined := v + [SEMICOLON] + l + [EQUALS] + w;
    TwoWrites(k, joined, v, l, w);
    s := MineOne(NEW_NODE, Write(k, joined, 0));
    s := SnapOne(s, id);
    s := MineOne(s, Write(k, v, 1));
    s := MineOne(s, Write(l, w, 2));
    ReachedInv(s);
    assert SnapshotReplays(s.blocks, id, s.snaps[id]);
    StaleSnapshotVerifies(s, id, k, v, l, w);
  }
}
