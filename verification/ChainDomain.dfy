/** Transaction roots and block checks: internal/chain_domain/types.go. */
module ChainDomain {
  import opened Bytes
  import opened Options
  import opened Hashing
  import opened ChainTypes
  import opened MerkleTree
  import opened MerkleLevels

  // ----- Transaction roots

  function TxItems(txs: seq<Tx>): (s: seq<Item>)
    ensures |s| == |txs|
  {
    seq(|txs|, i requires 0 <= i < |txs| => Transaction(txs[i]))
  }

  ghost function TxRoot(txs: seq<Tx>): (root: str)
    ensures IsDigest(root)
  {
    ListRoot(TxItems(txs))
  }

  /** The strings hashed while computing a transaction root. */
  ghost function TxHashed(txs: seq<Tx>): set<str> {
    ListHashed(TxItems(txs))
  }

  /** The hashed transaction strings as the tree sees them. */
  ghost function TxSpread(txs: seq<Tx>): seq<str> {
    ListSpread(TxItems(txs))
  }

  function TxStrings(txs: seq<Tx>): (s: seq<str>)
    ensures |s| == |txs|
  {
    seq(|txs|, i requires 0 <= i < |txs| => TxBytes(txs[i]))
  }

  method HashLevel(a: seq<str>) returns (n: seq<str>)
    ensures n == Up(a)
  {
    n := [];
    var i := 0;
    while i < |a|
      invariant i == 2 * |n| && |n| <= (|a| + 1) / 2
      invariant forall k :: 0 <= k < |n| ==> n[k] == HashPair(a, 2 * k)
    {
      var j := i + 1;
      if j == |a| {
        j := i;
      }
      n := n + [Hash(a[i] + a[j])];
      i := i + 2;
    }
  }

  method MerkleRoot(txs: seq<Tx>) returns (root: str)
    ensures root == TxRoot(txs)
  {
    if |txs| == 0 {
      return Hash([]);
    }
    var a := seq(|txs|, i requires 0 <= i < |txs| => TxHash(txs[i]));
    assert a == Digests(LeavesOf(TxItems(txs)));
    FoldOfDigests(LeavesOf(TxItems(txs)));
    while |a| > 1
      invariant a != [] && Fold(a) == TxRoot(txs)
      decreases |a|
    {
      a := HashLevel(a);
    }
    root := a[0];
  }

  /** What a transaction root is: the hashed strings of the list, padded, and hashed by halves. */
  lemma {:induction false} TxRootByHalves(txs: seq<Tx>)
    ensures txs == [] ==> TxRoot(txs) == Hash([])
    ensures txs != [] ==> TxRoot(txs) == Halves(Picked(TxItems(txs), Padded(|txs|)))
    ensures forall i :: 0 <= i < |txs| ==> Preimage(TxItems(txs)[i]) == TxBytes(txs[i])
  {
    RootByHalves(TxItems(txs));
  }

  /** Exactly when two lists share a root: when padding them gives the same list. */
  lemma {:induction false} TxRootBindsSpread(a: seq<Tx>, b: seq<Tx>)
    requires CollisionFree(TxHashed(a), TxHashed(b))
    ensures TxRoot(a) == TxRoot(b) <==> TxSpread(a) == TxSpread(b)
  {
    RootBindsSpread(TxItems(a), TxItems(b));
  }

  /** Without repeated entries the root binds the list itself, length and order included. */
  lemma TxRootBindsList(a: seq<Tx>, b: seq<Tx>)
    requires CollisionFree(TxHashed(a), TxHashed(b))
    requires Distinct(TxStrings(a)) && Distinct(TxStrings(b))
    requires TxRoot(a) == TxRoot(b)
    ensures TxStrings(a) == TxStrings(b)
  {
    TxRootBindsSpread(a, b);
    SpreadGivesStrings(a);
    SpreadGivesStrings(b);
  }

  lemma SpreadGivesStrings(txs: seq<Tx>)
    requires Distinct(TxStrings(txs))
    ensures FirstOccurrences(TxSpread(txs), {}) == TxStrings(txs)
  {
    if txs != [] {
      ItemsOfTree(TxItems(txs));
      assert Preimages(TxItems(txs)) == TxStrings(txs);
      SpreadDeterminesItems(TreeOf(TxItems(txs)), {});
    }
  }

  lemma UpOfRepeatedLast(ds: seq<str>)
    requires |ds| % 2 == 1
    ensures Up(ds + [ds[|ds| - 1]]) == Up(ds)
  {
    var es := ds + [ds[|ds| - 1]];
    forall i | 0 <= i < |Up(ds)|
      ensures HashPair(es, 2 * i) == HashPair(ds, 2 * i)
    {
    }
  }

  lemma TxRootIsFold(txs: seq<Tx>)
    requires txs != []
    ensures TxRoot(txs) == Fold(Digests(LeavesOf(TxItems(txs))))
  {
    FoldOfDigests(LeavesOf(TxItems(txs)));
  }

  /** Why distinctness is needed: repeating the last entry of an odd list does not change the root. */
  lemma RepeatedLastTxKeepsRoot(txs: seq<Tx>)
    requires |txs| % 2 == 1 && |txs| > 1
    ensures TxRoot(txs + [txs[|txs| - 1]]) == TxRoot(txs)
  {
    var more := txs + [txs[|txs| - 1]];
    var ds, es := Digests(LeavesOf(TxItems(txs))), Digests(LeavesOf(TxItems(more)));
    TxRootIsFold(txs);
    TxRootIsFold(more);
    assert es == ds + [ds[|ds| - 1]];
    UpOfRepeatedLast(ds);
  }

  // ----- Blocks

  /** Go's increment of a height. */
  function Succ(h: u64): u64 {
    Wrap64(h + 1)
  }

  lemma SuccMeans(h: u64)
    ensures Succ(h) == if h == 0xFFFF_FFFF_FFFF_FFFF then 0 else h + 1
  {
  }

  datatype BlockFault = HeightZero | HeightGap | PrevHashMismatch | TxRootMismatch | MissingHash

  ghost predicate Follows(b: Block, prev: Block) {
    b.header.height == Succ(prev.header.height) && b.header.prevHash == prev.hash
  }

  ghost predicate ValidBlock(b: Block, prev: Option<Block>) {
    && b.header.height != 0
    && (prev.Some? ==> Follows(b, prev.value))
    && b.header.txRoot == TxRoot(b.transactions)
    && b.hash != []
  }

  /** The check that each error stands for does fail. */
  ghost predicate Explains(fault: BlockFault, b: Block, prev: Option<Block>) {
    match fault
    case HeightZero => b.header.height == 0
    case HeightGap => prev.Some? && b.header.height != Succ(prev.value.header.height)
    case PrevHashMismatch => prev.Some? && b.header.prevHash != prev.value.hash
    case TxRootMismatch => b.header.txRoot != TxRoot(b.transactions)
    case MissingHash => b.hash == []
  }

  method ValidateBlock(b: Block, prev: Option<Block>) returns (fault: Option<BlockFault>)
    ensures fault.None? <==> ValidBlock(b, prev)
    ensures fault.None? <==>
      && b.header.height != 0
      && (prev.Some? ==> b.header.height == Succ(prev.value.header.height) && b.header.prevHash == prev.value.hash)
      && b.header.txRoot == TxRoot(b.transactions)
      && b.hash != []
    ensures b.header.height == 0 ==> fault == Some(HeightZero)
    ensures fault.Some? ==> Explains(fault.value, b, prev)
  {
    if b.header.height == 0 {
      return Some(HeightZero);
    }
    if prev.Some? {
      if b.header.height != Succ(prev.value.header.height) {
        return Some(HeightGap);
      }
      if b.header.prevHash != prev.value.hash {
        return Some(PrevHashMismatch);
      }
    }
    var root := MerkleRoot(b.transactions);
    if b.header.txRoot != root {
      return Some(TxRootMismatch);
    }
    if b.hash == [] {
      return Some(MissingHash);
    }
    return None;
  }
}
