/** The block store and what an accepted store commits to: internal/repository/repo.go and retention.go. */
module Repository {
  import opened Bytes
  import opened Sets
  import opened Options
  import opened Hashing
  import opened ChainTypes
  import opened ChainDomain
  import MerkleTree

  type Blocks = map<u64, Block>

  /** Blocks are stored under their own height. */
  ghost predicate Keyed(blocks: Blocks) {
    forall h :: h in blocks ==> blocks[h].header.height == h
  }

  ghost predicate Accepted(blocks: Blocks) {
    forall h :: 1 <= h <= |blocks| ==> AcceptedAt(blocks, h)
  }

  ghost predicate AcceptedAt(blocks: Blocks, h: int) {
    && h in blocks
    && (h == 1 ==> ValidBlock(blocks[h], None))
    && (h > 1 ==> h - 1 in blocks && ValidBlock(blocks[h], Some(blocks[h - 1])))
  }

  function Heights(n: nat): (s: set<int>)
    ensures |s| == n && forall h :: h in s <==> 1 <= h <= n
  {
    if n == 0 then {} else Heights(n - 1) + {n}
  }

  /** Acceptance leaves no room for other heights. */
  lemma AcceptedHeights(blocks: Blocks)
    requires Accepted(blocks)
    ensures forall h :: h in blocks <==> 1 <= h <= |blocks|
  {
    var needed := Heights(|blocks|);
    var stored: set<int> := set h | h in blocks.Keys :: h;
    assert stored == blocks.Keys;
    forall h | h in needed
      ensures h in stored
    {
      assert AcceptedAt(blocks, h);
    }
    SubsetCardinality(needed, stored);
  }

  // ----- History binding

  /** `b.Hash` is what `ComputeHash` gives. */
  ghost predicate SelfHashed(blocks: Blocks) {
    forall h :: h in blocks ==> blocks[h].hash == HeaderHash(blocks[h].header)
  }

  /** The header strings no check pins down are free of the field separator. */
  ghost predicate BarFree(blocks: Blocks) {
    && (forall h :: h in blocks ==> BAR !in blocks[h].header.stateRoot && BAR !in blocks[h].header.proposer)
    && (1 in blocks ==> BAR !in blocks[1].header.prevHash)
  }

  ghost function BlockHashed(b: Block): set<str> {
    {HeaderBytes(b.header)} + TxHashed(b.transactions)
  }

  /** The strings hashed while sealing and checking the blocks of a store. */
  ghost function ChainHashed(blocks: Blocks): set<str> {
    set h, s | h in blocks && s in BlockHashed(blocks[h]) :: s
  }

  /** The block at the greatest height, or the zero block of an empty store. */
  ghost function Tip(blocks: Blocks): Block {
    if |blocks| in blocks then blocks[|blocks|] else ZERO_BLOCK
  }

  /** A store that verifies, whose block hashes are those of its headers. */
  ghost predicate Linked(blocks: Blocks) {
    Keyed(blocks) && Accepted(blocks) && SelfHashed(blocks)
  }

  ghost predicate WellLinked(blocks: Blocks) {
    Linked(blocks) && BarFree(blocks)
  }

  lemma DigestHasNoBar(d: str)
    requires IsDigest(d)
    ensures BAR !in d
  {
  }

  lemma HeaderIsBarFree(blocks: Blocks, h: u64)
    requires WellLinked(blocks) && h in blocks
    ensures HeaderBarFree(blocks[h].header)
  {
    AcceptedHeights(blocks);
    assert AcceptedAt(blocks, h);
    DigestHasNoBar(blocks[h].header.txRoot);
    if h > 1 {
      DigestHasNoBar(blocks[h - 1].hash);
    }
  }

  lemma {:induction false} SameHashSameHeader(a: Blocks, b: Blocks, g: u64, h: u64)
    requires WellLinked(a) && Linked(b) && g in a && h in b
    requires CollisionFree(ChainHashed(a), ChainHashed(b))
    requires a[g].hash == b[h].hash
    ensures g == h && a[g].header == b[h].header
  {
    HeaderIsBarFree(a, g);
    HeaderReadableIff(a[g].header);
    assert HeaderBytes(a[g].header) in BlockHashed(a[g]) && HeaderBytes(b[h].header) in BlockHashed(b[h]);
  }

  lemma AcceptedLink(blocks: Blocks, h: u64)
    requires Accepted(blocks) && h in blocks && h > 1
    ensures h - 1 in blocks && blocks[h].header.prevHash == blocks[h - 1].hash
  {
    AcceptedHeights(blocks);
    assert AcceptedAt(blocks, h);
  }

  /** Equal hashes at one height pin every header at or below it. */
  lemma {:induction false} HeadersAgreeBelow(a: Blocks, b: Blocks, top: u64, h: u64)
    requires WellLinked(a) && Linked(b)
    requires CollisionFree(ChainHashed(a), ChainHashed(b))
    requires top in a && top in b && a[top].hash == b[top].hash
    requires 1 <= h <= top
    ensures h in a && h in b && a[h].header == b[h].header && a[h].hash == b[h].hash
    decreases top
  {
    SameHashSameHeader(a, b, top, top);
    if h < top {
      AcceptedLink(a, top);
      AcceptedLink(b, top);
      HeadersAgreeBelow(a, b, top - 1, h);
    }
  }

  ghost predicate DistinctTransactions(b: Block) {
    MerkleTree.Distinct(TxStrings(b.transactions))
  }

  /** What the hash of a block fixes: its header, and its hashed transactions up to repetition of odd tails. */
  ghost predicate BlocksAgree(x: Block, y: Block) {
    && x.hash == y.hash && x.header == y.header
    && TxSpread(x.transactions) == TxSpread(y.transactions)
    && (DistinctTransactions(x) && DistinctTransactions(y) ==> TxStrings(x.transactions) == TxStrings(y.transactions))
  }

  lemma SameHeaderAgree(x: Block, y: Block)
    requires x.header == y.header && x.hash == y.hash
    requires x.header.txRoot == TxRoot(x.transactions) && y.header.txRoot == TxRoot(y.transactions)
    requires CollisionFree(BlockHashed(x), BlockHashed(y))
    ensures BlocksAgree(x, y)
  {
    TxRootBindsSpread(x.transactions, y.transactions);
    if DistinctTransactions(x) && DistinctTransactions(y) {
      TxRootBindsList(x.transactions, y.transactions);
    }
  }

  lemma BlockInChainHashed(blocks: Blocks, h: u64)
    requires h in blocks
    ensures BlockHashed(blocks[h]) <= ChainHashed(blocks)
  {
  }

  lemma {:induction false} AgreeAt(a: Blocks, b: Blocks, top: u64, h: u64)
    requires WellLinked(a) && Linked(b)
    requires CollisionFree(ChainHashed(a), ChainHashed(b))
    requires top in a && top in b && a[top].hash == b[top].hash
    requires 1 <= h <= top
    ensures h in a && h in b && BlocksAgree(a[h], b[h])
  {
    HeadersAgreeBelow(a, b, top, h);
    TxRootOfAccepted(a, h);
    TxRootOfAccepted(b, h);
    BlockInChainHashed(a, h);
    BlockInChainHashed(b, h);
    CollisionFreeWithin(ChainHashed(a), ChainHashed(b), BlockHashed(a[h]), BlockHashed(b[h]));
    SameHeaderAgree(a[h], b[h]);
  }

  lemma TxRootOfAccepted(blocks: Blocks, h: u64)
    requires Accepted(blocks) && h in blocks
    ensures blocks[h].header.txRoot == TxRoot(blocks[h].transactions)
  {
    AcceptedHeights(blocks);
    assert AcceptedAt(blocks, h);
  }

  lemma TipIsStored(blocks: Blocks)
    requires Accepted(blocks) && |blocks| > 0
    ensures |blocks| in blocks && Tip(blocks) == blocks[|blocks|]
  {
    AcceptedHeights(blocks);
  }

  lemma TipHashMissing(blocks: Blocks)
    requires Accepted(blocks)
    ensures Tip(blocks).hash == [] <==> |blocks| == 0
  {
    if |blocks| > 0 {
      assert AcceptedAt(blocks, |blocks|);
    }
  }

  lemma SameTipSameHeight(a: Blocks, b: Blocks)
    requires WellLinked(a) && Linked(b)
    requires CollisionFree(ChainHashed(a), ChainHashed(b))
    requires Tip(a).hash == Tip(b).hash
    ensures |a| == |b|
  {
    TipHashMissing(a);
    TipHashMissing(b);
    if |a| > 0 && |b| > 0 {
      TipIsStored(a);
      TipIsStored(b);
      SameHashSameHeader(a, b, |a|, |b|);
    }
  }

  // ----- The store

  const ZERO_BLOCK := Block(Header(0, 0, [], [], [], [], 0, 0), [], [], [])

  /** What `Latest` returns: a block of greatest positive height, or the zero block. */
  ghost predicate IsLatest(blocks: Blocks, b: Block) {
    && (forall h :: h in blocks ==> blocks[h].header.height <= b.header.height)
    && (b == ZERO_BLOCK || (b.header.height > 0 && exists h :: h in blocks && blocks[h] == b))
  }

  lemma LatestOfAccepted(blocks: Blocks, b: Block)
    requires Keyed(blocks) && Accepted(blocks) && IsLatest(blocks, b)
    ensures b == Tip(blocks) && b.header.height == |blocks|
  {
    AcceptedHeights(blocks);
    if blocks != map[] {
      assert AcceptedAt(blocks, |blocks|);
    }
  }

  lemma {:induction false} TipHashBindsBlock(a: Blocks, b: Blocks, h: u64)
    requires WellLinked(a) && Linked(b)
    requires CollisionFree(ChainHashed(a), ChainHashed(b))
    requires Tip(a).hash == Tip(b).hash
    ensures h in a <==> h in b
    ensures h in a ==> BlocksAgree(a[h], b[h])
  {
    SameTipSameHeight(a, b);
    AcceptedHeights(a);
    AcceptedHeights(b);
    if h in a {
      AgreeAt(a, b, |a|, h);
    }
  }

  /**
    The hash of the latest block of a store that verifies pins its height, all its headers and, block by block, its
    transactions.
   */
  lemma {:induction false} TipHashBindsHistory(a: Blocks, b: Blocks, x: Block, y: Block, h: u64)
    requires WellLinked(a) && Linked(b)
    requires CollisionFree(ChainHashed(a), ChainHashed(b))
    requires IsLatest(a, x) && IsLatest(b, y) && x.hash == y.hash
    ensures h in a <==> h in b
    ensures h in a ==> BlocksAgree(a[h], b[h])
  {
    LatestOfAccepted(a, x);
    LatestOfAccepted(b, y);
    TipHashBindsBlock(a, b, h);
  }

  datatype ChainFault = ChainGap | BadBlock(fault: BlockFault)

  /** All heights below `h` are accepted, and `h` fails the check that `f` names. */
  ghost predicate FirstFault(blocks: Blocks, h: int, f: ChainFault) {
    && 1 <= h <= |blocks| && (forall g :: 1 <= g < h ==> AcceptedAt(blocks, g))
    && match f
       case ChainGap => h !in blocks
       case BadBlock(e) =>
         && h in blocks && (h > 1 ==> h - 1 in blocks)
         && Explains(e, blocks[h], if h == 1 then None else Some(blocks[h - 1]))
  }

  // ----- The hashes that are not checked

  /** Two stores with the same heights, headers and, up to repeated tails, transactions. */
  ghost predicate HistoriesAgree(a: Blocks, b: Blocks) {
    a.Keys == b.Keys && forall h :: h in a ==> BlocksAgree(a[h], b[h])
  }

  lemma SameTipSameHeights(a: Blocks, b: Blocks)
    requires WellLinked(a) && Linked(b)
    requires CollisionFree(ChainHashed(a), ChainHashed(b))
    requires Tip(a).hash == Tip(b).hash
    ensures a.Keys == b.Keys
  {
    SameTipSameHeight(a, b);
    AcceptedHeights(a);
    AcceptedHeights(b);
  }

  lemma {:induction false} LinkedHistoriesAgree(a: Blocks, b: Blocks)
    requires WellLinked(a) && Linked(b)
    requires CollisionFree(ChainHashed(a), ChainHashed(b))
    requires Tip(a).hash == Tip(b).hash
    ensures HistoriesAgree(a, b)
  {
    SameTipSameHeights(a, b);
    forall h | h in a
      ensures BlocksAgree(a[h], b[h])
    {
      TipHashBindsBlock(a, b, h);
    }
  }

  lemma AgreeingHashesAreHonest(a: Blocks, b: Blocks)
    requires WellLinked(a) && HistoriesAgree(a, b)
    ensures Keyed(b) && SelfHashed(b)
  {
    forall h | h in b
      ensures b[h].header.height == h && b[h].hash == HeaderHash(b[h].header)
    {
      assert BlocksAgree(a[h], b[h]);
    }
  }

  /**
    Exactly when another store that verifies shares the history its tip hash stands for: when its blocks lie under
    their own heights and carry the hashes of their headers.
   */
  lemma {:induction false} HistoryBoundIff(a: Blocks, b: Blocks)
    requires WellLinked(a) && Accepted(b)
    requires CollisionFree(ChainHashed(a), ChainHashed(b))
    requires Tip(a).hash == Tip(b).hash
    ensures HistoriesAgree(a, b) <==> Keyed(b) && SelfHashed(b)
  {
    if HistoriesAgree(a, b) {
      AgreeingHashesAreHonest(a, b);
    }
    if Keyed(b) && SelfHashed(b) {
      LinkedHistoriesAgree(a, b);
    }
  }

  ghost function WithTipRoot(blocks: Blocks, r: str): Blocks
    requires |blocks| in blocks
  {
    var tip := blocks[|blocks|];
    blocks[|blocks| := tip.(header := tip.header.(stateRoot := r))]
  }

  /** No check recomputes a block hash: with another state root at its tip a store verifies under the same hash. */
  lemma {:induction false} TipRootUnchecked(blocks: Blocks, r: str)
    requires Keyed(blocks) && Accepted(blocks) && |blocks| > 0 && r != Tip(blocks).header.stateRoot
    ensures |blocks| in blocks
    ensures var other := WithTipRoot(blocks, r);
      && Keyed(other) && Accepted(other) && Tip(other).hash == Tip(blocks).hash
      && !HistoriesAgree(blocks, other)
  {
    TipIsStored(blocks);
    var n: u64, other := |blocks|, WithTipRoot(blocks, r);
    assert |other| == n by {
      assert other.Keys == blocks.Keys && |other.Keys| == |other| && |blocks.Keys| == |blocks|;
    }
    forall h | 1 <= h <= |other|
      ensures AcceptedAt(other, h)
    {
      assert AcceptedAt(blocks, h);
    }
    assert other[n].header != blocks[n].header;
    assert !BlocksAgree(blocks[n], other[n]);
  }

  class Repo {
    var blocks: Blocks
    var snaps: map<str, Snapshot>

    constructor ()
      ensures blocks == map[] && snaps == map[]
    {
      blocks, snaps := map[], map[];
    }

    method PutBlock(b: Block) returns (ok: bool)
      modifies this`blocks
      ensures ok <==> b.header.height !in old(blocks)
      ensures blocks == if ok then old(blocks)[b.header.height := b] else old(blocks)
      ensures old(Keyed(blocks)) ==> Keyed(blocks)
    {
      if b.header.height in blocks {
        return false;
      }
      blocks := blocks[b.header.height := b];
      return true;
    }

    method Latest() returns (b: Block)
      ensures IsLatest(blocks, b)
    {
      b := ZERO_BLOCK;
      var rest := blocks.Keys;
      while rest != {}
        invariant rest <= blocks.Keys
        invariant forall h :: h in blocks && h !in rest ==> blocks[h].header.height <= b.header.height
        invariant b == ZERO_BLOCK || (b.header.height > 0 && exists h :: h in blocks && blocks[h] == b)
        decreases |rest|
      {
        var h :| h in rest;
        var x := blocks[h];
        if x.header.height > b.header.height {
          b := x;
        }
        rest := rest - {h};
      }
    }

    method PutSnapshot(s: Snapshot)
      modifies this`snaps
      ensures snaps == old(snaps)[s.id := s]
    {
      snaps := snaps[s.id := s];
    }

    method Snapshot(id: str) returns (s: Option<Snapshot>)
      ensures s == if id in snaps then Some(snaps[id]) else None
    {
      return if id in snaps then Some(snaps[id]) else None;
    }

    /** Go's `len` is an `int`, so no map it measures reaches the size where the height counter of the loop wraps. */
    method VerifyChain() returns (fault: Option<ChainFault>)
      requires |blocks| < TWO_TO_63
      ensures fault.None? <==> Accepted(blocks)
      ensures fault.Some? ==> exists h :: FirstFault(blocks, h, fault.value)
    {
      var prev: Option<Block> := None;
      var h := 1;
      while h <= |blocks|
        invariant 1 <= h <= |blocks| + 1
        invariant forall g :: 1 <= g < h ==> AcceptedAt(blocks, g)
        invariant h == 1 ==> prev == None
        invariant h > 1 ==> h - 1 in blocks && prev == Some(blocks[h - 1])
      {
        if h !in blocks {
          assert !AcceptedAt(blocks, h) && FirstFault(blocks, h, ChainGap);
          return Some(ChainGap);
        }
        var b := blocks[h];
        var e := ValidateBlock(b, prev);
        if e.Some? {
          assert !AcceptedAt(blocks, h) && FirstFault(blocks, h, BadBlock(e.value));
          return Some(BadBlock(e.value));
        }
        prev := Some(b);
        h := h + 1;
      }
      return None;
    }

    method DeleteAbove(h: u64)
      modifies this`blocks
      ensures blocks == map x | x in old(blocks) && x <= h :: old(blocks)[x]
    {
      var rest := blocks.Keys;
      while rest != {}
        invariant rest <= old(blocks).Keys
        invariant blocks == map x | x in old(blocks) && (x in rest || x <= h) :: old(blocks)[x]
        decreases |rest|
      {
        var x :| x in rest;
        if x > h {
          blocks := blocks - {x};
        }
        rest := rest - {x};
      }
    }
  }

  /** Cutting an accepted store back leaves an accepted store. */
  lemma DeleteAboveKeepsAccepted(blocks: Blocks, h: u64)
    requires Accepted(blocks)
    ensures Accepted(map x | x in blocks && x <= h :: blocks[x])
  {
    AcceptedHeights(blocks);
    var cut := map x | x in blocks && x <= h :: blocks[x];
    var n := if h < |blocks| then h else |blocks|;
    var stored: set<int> := set x | x in cut.Keys :: x;
    assert stored == cut.Keys && stored == Heights(n);
    forall g | 1 <= g <= |cut|
      ensures AcceptedAt(cut, g)
    {
      assert AcceptedAt(blocks, g);
    }
  }
}
