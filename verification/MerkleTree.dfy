/**
  The binary tree behind both commitments of the node: the map commitment of internal/proof/merkle.go and the
  transaction root of internal/chain_domain/types.go.  The code computes the same tree three ways (as linked
  nodes, as lists of digests with a shared or repeated last entry, and along one path); here it is a value.
 */
module MerkleTree {
  import opened Bytes
  import opened Hashing
  import opened ChainTypes
  import opened Powers

  /** What may stand at a leaf: an entry of a key-value map, or a transaction. */
  datatype Item = Entry(key: str, value: str) | Transaction(tx: Tx)

  function Preimage(i: Item): str {
    match i
    case Entry(k, v) => k + [EQUALS] + v
    case Transaction(t) => TxBytes(t)
  }

  /** Domain separation: what is hashed at a leaf is never a concatenation of digests. */
  lemma PreimageNotHex(i: Item)
    ensures !AllHex(Preimage(i))
  {
    match i
    case Entry(k, v) => assert Preimage(i)[|k|] == EQUALS;
    case Transaction(t) =>
      JoinHasBar(TxFields(t));
      var j :| 0 <= j < |Preimage(i)| && Preimage(i)[j] == BAR;
  }

  /** `Dup` is an unpaired node at an odd level, hashed with itself. */
  datatype Tree = Leaf(item: Item) | Two(left: Tree, right: Tree) | Dup(child: Tree)

  function Digest(t: Tree): (d: str)
    ensures IsDigest(d)
  {
    match t
    case Leaf(i) => Hash(Preimage(i))
    case Two(l, r) => Hash(Digest(l) + Digest(r))
    case Dup(c) => Hash(Digest(c) + Digest(c))
  }

  /** The strings hashed while computing `Digest(t)`. */
  ghost function Hashed(t: Tree): set<str> {
    match t
    case Leaf(i) => {Preimage(i)}
    case Two(l, r) => {Digest(l) + Digest(r)} + Hashed(l) + Hashed(r)
    case Dup(c) => {Digest(c) + Digest(c)} + Hashed(c)
  }

  /** The items of the tree, left to right. */
  function Items(t: Tree): (s: seq<Item>)
    ensures s != []
  {
    match t
    case Leaf(i) => [i]
    case Two(l, r) => Items(l) + Items(r)
    case Dup(c) => Items(c)
  }

  /** The leaf preimages left to right, with what lies below an unpaired node counted twice. */
  function Spread(t: Tree): (s: seq<str>)
    ensures s != []
  {
    match t
    case Leaf(i) => [Preimage(i)]
    case Two(l, r) => Spread(l) + Spread(r)
    case Dup(c) => Spread(c) + Spread(c)
  }

  function Preimages(s: seq<Item>): (p: seq<str>)
    ensures |p| == |s| && forall i :: 0 <= i < |s| ==> p[i] == Preimage(s[i])
  {
    seq(|s|, i requires 0 <= i < |s| => Preimage(s[i]))
  }

  lemma PreimagesAppend(a: seq<Item>, b: seq<Item>)
    ensures Preimages(a + b) == Preimages(a) + Preimages(b)
  {
  }

  lemma {:induction false} SpreadMembers(t: Tree, p: str)
    ensures p in Spread(t) <==> p in Preimages(Items(t))
  {
    match t
    case Leaf(i) => assert Preimages(Items(t)) == [Preimage(i)];
    case Two(l, r) =>
      SpreadMembers(l, p);
      SpreadMembers(r, p);
      PreimagesAppend(Items(l), Items(r));
    case Dup(c) => SpreadMembers(c, p);
  }

  // ----- Binding

  function Children(t: Tree): (c: (Tree, Tree))
    requires !t.Leaf?
    ensures c.0 < t && c.1 < t
  {
    if t.Two? then (t.left, t.right) else (t.child, t.child)
  }

  /** The string whose digest is `Digest(t)`; only its bytes tell a leaf from an inner node. */
  ghost function TopPreimage(t: Tree): (p: str)
    ensures p in Hashed(t) && Hash(p) == Digest(t)
    ensures AllHex(p) <==> !t.Leaf?
  {
    if t.Leaf? then
      PreimageNotHex(t.item);
      Preimage(t.item)
    else
      Digest(Children(t).0) + Digest(Children(t).1)
  }

  /** Equal digests force equal trees up to sharing, so equal spreads. */
  lemma {:induction false} EqualDigestsEqualSpreads(s: Tree, t: Tree)
    requires CollisionFree(Hashed(s), Hashed(t))
    requires Digest(s) == Digest(t)
    ensures Spread(s) == Spread(t)
  {
    assert TopPreimage(s) == TopPreimage(t);
    if !s.Leaf? {
      var (s0, s1) := Children(s);
      var (t0, t1) := Children(t);
      SplitAtLength(Digest(s0), Digest(s1), Digest(t0), Digest(t1));
      CollisionFreeWithin(Hashed(s), Hashed(t), Hashed(s0), Hashed(t0));
      EqualDigestsEqualSpreads(s0, t0);
      CollisionFreeWithin(Hashed(s), Hashed(t), Hashed(s1), Hashed(t1));
      EqualDigestsEqualSpreads(s1, t1);
    }
  }

  /** Every leaf lies at the same depth. */
  predicate Perfect(t: Tree, depth: nat) {
    match t
    case Leaf(_) => depth == 0
    case Two(l, r) => depth > 0 && Perfect(l, depth - 1) && Perfect(r, depth - 1)
    case Dup(c) => depth > 0 && Perfect(c, depth - 1)
  }

  lemma {:induction false} PerfectSpread(t: Tree, depth: nat)
    requires Perfect(t, depth)
    ensures |Spread(t)| == Pow2(depth)
  {
    if depth > 0 {
      var (l, r) := Children(t);
      PerfectSpread(l, depth - 1);
      PerfectSpread(r, depth - 1);
    }
  }

  lemma {:induction false} EqualSpreadsEqualDigests(s: Tree, t: Tree, depth: nat)
    requires Perfect(s, depth) && Perfect(t, depth)
    requires Spread(s) == Spread(t)
    ensures Digest(s) == Digest(t)
  {
    if depth > 0 {
      var (s0, s1) := Children(s);
      var (t0, t1) := Children(t);
      PerfectSpread(s0, depth - 1);
      PerfectSpread(t0, depth - 1);
      SplitAtLength(Spread(s0), Spread(s1), Spread(t0), Spread(t1));
      EqualSpreadsEqualDigests(s0, t0, depth - 1);
      EqualSpreadsEqualDigests(s1, t1, depth - 1);
    }
  }

  // ----- The root by halves

  /** The root of a list whose length is a power of two: the left half hashed before the right one. */
  function Halves(s: seq<str>): str
    requires s != []
    decreases |s|
  {
    if |s| == 1 then Hash(s[0]) else Hash(Halves(s[..|s| / 2]) + Halves(s[|s| / 2..]))
  }

  /** What the digest of a tree is, in terms of its leaf strings alone. */
  lemma {:induction false} DigestByHalves(t: Tree, depth: nat)
    requires Perfect(t, depth)
    ensures Digest(t) == Halves(Spread(t))
  {
    if depth > 0 {
      var (l, r) := Children(t);
      PerfectSpread(l, depth - 1);
      PerfectSpread(r, depth - 1);
      DigestByHalves(l, depth - 1);
      DigestByHalves(r, depth - 1);
      var s, n := Spread(t), |Spread(l)|;
      assert s == Spread(l) + Spread(r) && |s| == 2 * n;
      assert s[..n] == Spread(l) && s[n..] == Spread(r);
    }
  }

  // ----- Repeated entries

  ghost predicate Distinct<T>(s: seq<T>) {
    forall i, j :: 0 <= i < j < |s| ==> s[i] != s[j]
  }

  /** The entries of `s` not in `seen`, each at its first occurrence. */
  ghost function FirstOccurrences(s: seq<str>, seen: set<str>): seq<str> {
    if s == [] then []
    else if s[0] in seen then FirstOccurrences(s[1..], seen)
    else [s[0]] + FirstOccurrences(s[1..], seen + {s[0]})
  }

  ghost function Elements(s: seq<str>): set<str> {
    set x | x in s
  }

  lemma {:induction false} FirstOccurrencesAppend(a: seq<str>, b: seq<str>, seen: set<str>)
    ensures FirstOccurrences(a + b, seen) == FirstOccurrences(a, seen) + FirstOccurrences(b, seen + Elements(a))
  {
    if a == [] {
      assert a + b == b && seen + Elements(a) == seen;
    } else {
      assert (a + b)[1..] == a[1..] + b;
      var seen' := if a[0] in seen then seen else seen + {a[0]};
      assert seen' + Elements(a[1..]) == seen + Elements(a) by {
        assert a == [a[0]] + a[1..];
      }
      FirstOccurrencesAppend(a[1..], b, seen');
    }
  }

  lemma {:induction false} FirstOccurrencesOfSeen(s: seq<str>, seen: set<str>)
    requires forall x :: x in s ==> x in seen
    ensures FirstOccurrences(s, seen) == []
  {
    if s != [] {
      FirstOccurrencesOfSeen(s[1..], seen);
    }
  }

  /** A spread determines the items it came from when no preimage repeats. */
  lemma {:induction false} SpreadDeterminesItems(t: Tree, seen: set<str>)
    requires Distinct(Preimages(Items(t)))
    requires forall p :: p in Preimages(Items(t)) ==> p !in seen
    ensures FirstOccurrences(Spread(t), seen) == Preimages(Items(t))
  {
    match t
    case Leaf(i) =>
      assert Preimages(Items(t)) == [Preimage(i)] && Spread(t)[1..] == [];
    case Two(l, r) =>
      var a, b := Preimages(Items(l)), Preimages(Items(r));
      PreimagesAppend(Items(l), Items(r));
      assert Preimages(Items(t)) == a + b;
      DistinctHalves(a, b);
      SpreadDeterminesItems(l, seen);
      forall p {
        SpreadMembers(l, p);
      }
      SpreadDeterminesItems(r, seen + Elements(Spread(l)));
      FirstOccurrencesAppend(Spread(l), Spread(r), seen);
    case Dup(c) =>
      SpreadDeterminesItems(c, seen);
      FirstOccurrencesAppend(Spread(c), Spread(c), seen);
      FirstOccurrencesOfSeen(Spread(c), seen + Elements(Spread(c)));
  }

  lemma DistinctHalves<T>(a: seq<T>, b: seq<T>)
    requires Distinct(a + b)
    ensures Distinct(a) && Distinct(b)
    ensures forall x :: x in a && x in b ==> false
  {
    var s := a + b;
    assert forall i :: 0 <= i < |a| ==> s[i] == a[i];
    assert forall i :: 0 <= i < |b| ==> s[|a| + i] == b[i];
  }
}
