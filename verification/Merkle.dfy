/** Map commitments: internal/proof/merkle.go. */
module Merkle {
  import opened Bytes
  import opened Hashing
  import opened MerkleTree
  import opened Powers
  import opened MerkleLevels
  import opened Options
  import Sorting

  // ----- The committed map

  ghost function Entries(items: map<str, str>, keys: seq<str>): (s: seq<Item>)
    requires forall k :: k in keys ==> k in items
    ensures |s| == |keys|
  {
    seq(|keys|, i requires 0 <= i < |keys| => Entry(keys[i], items[keys[i]]))
  }

  /** The entries of a map in ascending key order. */
  ghost function MapItems(items: map<str, str>): seq<Item> {
    Sorting.InOrderMembers(items.Keys);
    Entries(items, Sorting.InOrder(items.Keys))
  }

  ghost function KeyIndex(items: map<str, str>, key: str): (i: nat)
    requires key in items
    ensures i < |MapItems(items)| && MapItems(items)[i] == Entry(key, items[key])
  {
    Sorting.InOrderMembers(items.Keys);
    var i :| 0 <= i < |Sorting.InOrder(items.Keys)| && Sorting.InOrder(items.Keys)[i] == key;
    i
  }

  /** Each pair of the map appears exactly once, in ascending key order. */
  lemma MapItemsExact(items: map<str, str>)
    ensures |MapItems(items)| == |items|
    ensures forall e :: e in MapItems(items) <==> e.Entry? && e.key in items && items[e.key] == e.value
    ensures forall i, j :: 0 <= i < j < |items| ==> Less(MapItems(items)[i].key, MapItems(items)[j].key)
  {
    Sorting.InOrderMembers(items.Keys);
    forall e: Item | e.Entry? && e.key in items && items[e.key] == e.value
      ensures e in MapItems(items)
    {
      assert MapItems(items)[KeyIndex(items, e.key)] == e;
    }
  }

  ghost function MapRoot(items: map<str, str>): str {
    ListRoot(MapItems(items))
  }

  /** The strings hashed while computing the root of a map. */
  ghost function MapHashed(items: map<str, str>): set<str> {
    ListHashed(MapItems(items))
  }

  /** The `key=value` strings of a map in key order, odd tails of the tree repeated. */
  ghost function MapSpread(items: map<str, str>): seq<str> {
    ListSpread(MapItems(items))
  }

  predicate EqualsFreeKeys(items: map<str, str>) {
    forall k :: k in items ==> EQUALS !in k
  }

  lemma EntryPreimageInjective(a: Item, b: Item)
    requires a.Entry? && b.Entry? && EQUALS !in a.key && EQUALS !in b.key
    requires Preimage(a) == Preimage(b)
    ensures a == b
  {
    SplitAtSeparator(a.key, a.value, b.key, b.value, EQUALS);
  }

  /** Leaf strings of the tree are exactly the `key=value` strings of the map. */
  lemma SpreadOfMap(items: map<str, str>, p: str)
    ensures p in MapSpread(items) <==> exists k :: k in items && p == Preimage(Entry(k, items[k]))
  {
    MapItemsExact(items);
    var s := MapItems(items);
    ListSpreadMembers(s, p);
    if p in Preimages(s) {
      var i :| 0 <= i < |s| && Preimages(s)[i] == p;
      assert s[i] in s && p == Preimage(Entry(s[i].key, items[s[i].key]));
    }
    if k :| k in items && p == Preimage(Entry(k, items[k])) {
      assert Preimages(s)[KeyIndex(items, k)] == p;
    }
  }

  /** The string of an entry, in characters: key, `=`, value. */
  lemma {:induction false} EntryString(k: str, v: str)
    ensures var s := Preimage(Entry(k, v));
      |s| == |k| + 1 + |v| && s[..|k|] == k && s[|k|] == '=' as int && s[|k| + 1..] == v
  {
  }

  /** What the root of a map is: the strings of its entries in key order, padded and hashed by halves. */
  lemma {:induction false} MapRootByHalves(items: map<str, str>)
    ensures items == map[] ==> MapRoot(items) == Hash([])
    ensures items != map[] ==>
              |MapItems(items)| > 0 && MapRoot(items) == Halves(Picked(MapItems(items), Padded(|MapItems(items)|)))
  {
    MapItemsExact(items);
    RootByHalves(MapItems(items));
  }

  // ----- Root binding

  /** Exactly when two maps share a root, whatever their keys: when their padded lists of `key=value` strings agree. */
  lemma {:induction false} MapRootBindsSpread(m1: map<str, str>, m2: map<str, str>)
    requires CollisionFree(MapHashed(m1), MapHashed(m2))
    ensures MapRoot(m1) == MapRoot(m2) ==> MapSpread(m1) == MapSpread(m2)
    ensures MapSpread(m1) == MapSpread(m2) ==> MapRoot(m1) == MapRoot(m2)
  {
    RootBindsSpread(MapItems(m1), MapItems(m2));
  }

  ghost predicate KeysIn(m: map<str, str>, K: iset<str>) {
    forall k :: k in m ==> k in K
  }

  lemma SameSpreadSameEntries(K: iset<str>, m1: map<str, str>, m2: map<str, str>, k: str)
    requires PrefixFree(K, EQUALS) && KeysIn(m1, K) && KeysIn(m2, K)
    requires MapSpread(m1) == MapSpread(m2) && k in m1
    ensures k in m2 && m2[k] == m1[k]
  {
    var p := Preimage(Entry(k, m1[k]));
    SpreadOfMap(m1, p);
    SpreadOfMap(m2, p);
    var l :| l in m2 && p == Preimage(Entry(l, m2[l]));
    SplitInSet(K, k, m1[k], l, m2[l], EQUALS);
  }

  lemma RootBindsMapIn(K: iset<str>, m1: map<str, str>, m2: map<str, str>)
    requires PrefixFree(K, EQUALS) && KeysIn(m1, K) && KeysIn(m2, K)
    requires CollisionFree(MapHashed(m1), MapHashed(m2)) && MapRoot(m1) == MapRoot(m2)
    ensures m1 == m2
  {
    MapRootBindsSpread(m1, m2);
    forall k | k in m1
      ensures k in m2 && m2[k] == m1[k]
    {
      SameSpreadSameEntries(K, m1, m2, k);
    }
    forall k | k in m2
      ensures k in m1
    {
      SameSpreadSameEntries(K, m2, m1, k);
    }
  }

  /** The root binds the map: different maps, of whatever sizes, have different roots or exhibit a collision. */
  lemma RootBindsMap(m1: map<str, str>, m2: map<str, str>)
    requires EqualsFreeKeys(m1) && EqualsFreeKeys(m2)
    requires CollisionFree(MapHashed(m1), MapHashed(m2))
    ensures MapRoot(m1) == MapRoot(m2) <==> m1 == m2
  {
    FreeOfIsPrefixFree(EQUALS);
    if MapRoot(m1) == MapRoot(m2) {
      RootBindsMapIn(FreeOf(EQUALS), m1, m2);
    }
  }

  /** No two maps with keys in `K` share a root, unless hashed strings collide. */
  ghost predicate RootsBindMaps(K: iset<str>) {
    forall m1, m2 ::
      KeysIn(m1, K) && KeysIn(m2, K) && CollisionFree(MapHashed(m1), MapHashed(m2)) && MapRoot(m1) == MapRoot(m2) ==>
        m1 == m2
  }

  /** The exact condition on keys, for maps of every size: no key is another one followed by `=`. */
  lemma {:induction false} RootsBindMapsIff(K: iset<str>)
    ensures RootsBindMaps(K) <==> PrefixFree(K, EQUALS)
  {
    if PrefixFree(K, EQUALS) {
      forall m1, m2 |
        KeysIn(m1, K) && KeysIn(m2, K) && CollisionFree(MapHashed(m1), MapHashed(m2)) && MapRoot(m1) == MapRoot(m2)
        ensures m1 == m2
      {
        RootBindsMapIn(K, m1, m2);
      }
    } else {
      var k, r :| k in K && k + [EQUALS] + r in K;
      EqualsInKeysCollide(k, r, []);
      assert KeysIn(map[k + [EQUALS] + r := []], K) && KeysIn(map[k := r + [EQUALS] + []], K);
    }
  }

  lemma OneEntryMap(k: str, v: str)
    ensures MapItems(map[k := v]) == [Entry(k, v)]
    ensures MapSpread(map[k := v]) == [k + [EQUALS] + v]
    ensures MapHashed(map[k := v]) == {k + [EQUALS] + v}
    ensures MapRoot(map[k := v]) == Hash(k + [EQUALS] + v)
  {
    MapItemsExact(map[k := v]);
    assert Entry(k, v) in MapItems(map[k := v]);
    assert LeavesOf([Entry(k, v)]) == [Leaf(Entry(k, v))];
  }

  /** Why `=` in keys matters: the two ways to cut `k=r=v` are different maps with one root and one hashed string. */
  lemma EqualsInKeysCollide(k: str, r: str, v: str)
    ensures var m, n := map[k + [EQUALS] + r := v], map[k := r + [EQUALS] + v];
      m != n && MapRoot(m) == MapRoot(n) && MapHashed(m) == MapHashed(n) && CollisionFree(MapHashed(m), MapHashed(n))
  {
    OneEntryMap(k + [EQUALS] + r, v);
    OneEntryMap(k, r + [EQUALS] + v);
    Regroup(k + [EQUALS] + r, [EQUALS], v);
    Regroup(k + [EQUALS], r, [EQUALS] + v);
    Regroup(r, [EQUALS], v);
    var m: map<str, str> := map[k + [EQUALS] + r := v];
    assert |k + [EQUALS] + r| > |k|;
    assert k !in m;
  }

  /** No other map has the root of `m` unless a string hashed for one collides with a string hashed for the other. */
  ghost predicate DeterminedByRoot(m: map<str, str>) {
    forall n :: MapRoot(n) == MapRoot(m) && CollisionFree(MapHashed(m), MapHashed(n)) ==> n == m
  }

  lemma OneEntryBound(k: str, v: str, m: map<str, str>)
    requires EQUALS !in k && EQUALS !in v
    requires MapSpread(m) == [k + [EQUALS] + v]
    ensures m == map[k := v]
  {
    var p := k + [EQUALS] + v;
    assert p in MapSpread(m);
    SpreadOfMap(m, p);
    forall l | l in m
      ensures l == k && m[l] == v
    {
      SpreadOfMap(m, l + [EQUALS] + m[l]);
      SplitAtOnly(l, m[l], k, v, EQUALS);
    }
  }

  lemma OneEntryUnbound(k: str, r: str, v: str)
    ensures !DeterminedByRoot(map[k + [EQUALS] + r := v])
    ensures !DeterminedByRoot(map[k := r + [EQUALS] + v])
  {
    EqualsInKeysCollide(k, r, v);
  }

  /** The exact condition for one entry: it may hold no `=` beside the one the code writes. */
  lemma {:induction false} OneEntryBoundIff(k: str, v: str)
    ensures DeterminedByRoot(map[k := v]) <==> EQUALS !in k && EQUALS !in v
  {
    if EQUALS in k {
      var x, y := CutAtFirst(k, EQUALS);
      OneEntryUnbound(x, y, v);
    } else if EQUALS in v {
      var x, y := CutAtFirst(v, EQUALS);
      OneEntryUnbound(k, x, y);
    } else {
      forall m | MapRoot(m) == MapRoot(map[k := v]) && CollisionFree(MapHashed(map[k := v]), MapHashed(m))
        ensures m == map[k := v]
      {
        OneEntryMap(k, v);
        MapRootBindsSpread(map[k := v], m);
        OneEntryBound(k, v, m);
      }
    }
  }

  // ----- Nodes on the heap

  /** A tree node; nodes are shared by pointer and never updated once built. */
  class Node {
    const hash: str
    const left: Node?
    const right: Node?
    const key: str
    const value: str

    constructor (hash: str, left: Node?, right: Node?, key: str, value: str)
      ensures this.hash == hash && this.left == left && this.right == right && this.key == key && this.value == value
    {
      this.hash, this.left, this.right, this.key, this.value := hash, left, right, key, value;
    }
  }

  /** The nodes under `n` are laid out as `t`: pointers are shared exactly where `t` says so. */
  ghost predicate Shaped(n: Node, t: Tree) {
    match t
    case Leaf(Transaction(_)) => false
    case Leaf(Entry(k, v)) => n.left == null && n.right == null && n.key == k && n.value == v
    case Two(l, r) =>
      n.left != null && n.right != null && n.left != n.right && Shaped(n.left, l) && Shaped(n.right, r)
    case Dup(c) => n.left != null && n.right == n.left && Shaped(n.left, c)
  }

  ghost predicate Hashes(n: Node, t: Tree)
    requires Shaped(n, t)
  {
    n.hash == Digest(t) &&
    match t
    case Leaf(_) => true
    case Two(l, r) => Hashes(n.left, l) && Hashes(n.right, r)
    case Dup(c) => Hashes(n.left, c)
  }

  ghost predicate Level(nodes: seq<Node>, ts: seq<Tree>) {
    && |nodes| == |ts|
    && Distinct(nodes)
    && forall i :: 0 <= i < |ts| ==> Shaped(nodes[i], ts[i]) && Hashes(nodes[i], ts[i])
  }

  method BuildLeaves(items: map<str, str>, keys: seq<str>) returns (nodes: seq<Node>)
    requires forall k :: k in keys ==> k in items
    ensures Level(nodes, LeavesOf(Entries(items, keys)))
  {
    nodes := [];
    ghost var ts := LeavesOf(Entries(items, keys));
    for i := 0 to |keys|
      invariant Level(nodes, ts[..i])
    {
      var k := keys[i];
      assert k in items;
      var n := new Node(Hash(k + [EQUALS] + items[k]), null, null, k, items[k]);
      assert Shaped(n, ts[i]) && Hashes(n, ts[i]);
      nodes := nodes + [n];
    }
    assert ts[..|keys|] == ts;
  }

  lemma LevelGrows(nodes: seq<Node>, ts: seq<Tree>, n: Node)
    requires |nodes| < |ts| && Level(nodes, ts[..|nodes|]) && n !in nodes
    requires Shaped(n, ts[|nodes|]) && Hashes(n, ts[|nodes|])
    ensures Level(nodes + [n], ts[..|nodes| + 1])
  {
  }

  /** A node made for the pair at `i` has the shape and digest of the parent there. */
  lemma ParentOfPair(nodes: seq<Node>, ts: seq<Tree>, i: nat, n: Node)
    requires Level(nodes, ts) && i < |nodes|
    requires var j := Partner(i, |nodes|);
      n.left == nodes[i] && n.right == nodes[j] && n.hash == Hash(nodes[i].hash + nodes[j].hash)
    ensures Shaped(n, Parent(ts, i)) && Hashes(n, Parent(ts, i))
  {
  }

  method BuildNextLevel(nodes: seq<Node>, ghost ts: seq<Tree>) returns (next: seq<Node>)
    requires Level(nodes, ts)
    ensures Level(next, PairUp(ts))
  {
    next := [];
    ghost var us := PairUp(ts);
    var i := 0;
    while i < |nodes|
      invariant i == 2 * |next| && |next| <= |us|
      invariant Level(next, us[..|next|])
    {
      var j := i + 1;
      if j == |nodes| {
        j := i;
      }
      var n := new Node(Hash(nodes[i].hash + nodes[j].hash), nodes[i], nodes[j], [], []);
      ParentOfPair(nodes, ts, i, n);
      LevelGrows(next, us, n);
      next := next + [n];
      i := i + 2;
    }
    assert us[..|next|] == us;
  }

  /** The returned ghost tree is the layout of the nodes; it is empty of entries only for the empty map. */
  method BuildTree(items: map<str, str>) returns (n: Node, ghost t: Tree)
    ensures n.hash == MapRoot(items)
    ensures Shaped(n, t)
    ensures items != map[] ==> Hashes(n, t) && Items(t) == MapItems(items)
    ensures items == map[] ==> t == Leaf(Entry([], []))
  {
    var keys := Sorting.SortedKeys(items);
    Sorting.InOrderMembers(items.Keys);
    var nodes := BuildLeaves(items, keys);
    if |nodes| == 0 {
      n := new Node(Hash([]), null, null, [], []);
      t := Leaf(Entry([], []));
      return;
    }
    ghost var ts := LeavesOf(MapItems(items));
    while |nodes| > 1
      invariant nodes != [] && Level(nodes, ts) && Build(ts) == TreeOf(MapItems(items))
      decreases |nodes|
    {
      nodes := BuildNextLevel(nodes, ts);
      ts := PairUp(ts);
    }
    n, t := nodes[0], ts[0];
    ItemsOfTree(MapItems(items));
  }

  /** A copied leaf node; its pointers are nil. */
  datatype LeafCopy = LeafCopy(hash: str, key: str, value: str)

  /** The leaf nodes below `n`, a shared child once. */
  ghost function LeafCopies(n: Node, t: Tree): seq<LeafCopy>
    requires Shaped(n, t)
  {
    match t
    case Leaf(_) => [LeafCopy(n.hash, n.key, n.value)]
    case Two(l, r) => LeafCopies(n.left, l) + LeafCopies(n.right, r)
    case Dup(c) => LeafCopies(n.left, c)
  }

  /** They are the entries of the tree, each with its digest when the nodes carry the digests of the tree. */
  lemma {:induction false} LeafCopiesExact(n: Node, t: Tree)
    requires Shaped(n, t)
    ensures |LeafCopies(n, t)| == |Items(t)|
    ensures forall i :: 0 <= i < |Items(t)| ==>
              Items(t)[i] == Entry(LeafCopies(n, t)[i].key, LeafCopies(n, t)[i].value)
    ensures Hashes(n, t) ==> forall i :: 0 <= i < |Items(t)| ==> LeafCopies(n, t)[i].hash == Hash(Preimage(Items(t)[i]))
  {
    match t
    case Leaf(_) =>
    case Two(l, r) =>
      LeafCopiesExact(n.left, l);
      LeafCopiesExact(n.right, r);
    case Dup(c) => LeafCopiesExact(n.left, c);
  }

  /** The slice the caller passes to `Leaves` by pointer. */
  class LeafList {
    var leaves: seq<LeafCopy>

    constructor ()
      ensures leaves == []
    {
      leaves := [];
    }
  }

  lemma LeafCopiesBelow(n: Node, t: Tree)
    requires Shaped(n, t) && !t.Leaf?
    ensures n.left != null && n.right != null
    ensures Shaped(n.left, Children(t).0) && Shaped(n.right, Children(t).1)
    ensures LeafCopies(n, t) == LeafCopies(n.left, Children(t).0) +
                                if n.right == n.left then [] else LeafCopies(n.right, Children(t).1)
  {
  }

  /** Appends the leaves below `n`, entering a shared child once. */
  method Leaves(n: Node?, ghost t: Tree, out: LeafList)
    requires n != null ==> Shaped(n, t)
    modifies out
    ensures out.leaves == old(out.leaves) + if n == null then [] else LeafCopies(n, t)
    decreases t
  {
    if n == null {
      return;
    }
    if n.left == null && n.right == null {
      out.leaves := out.leaves + [LeafCopy(n.hash, n.key, n.value)];
      return;
    }
    ghost var (l, r) := Children(t);
    LeafCopiesBelow(n, t);
    Leaves(n.left, l, out);
    if n.right != null && n.right != n.left {
      Leaves(n.right, r, out);
    }
  }

  // ----- Proofs

  datatype MerkleProof = MerkleProof(key: str, value: str, root: str, steps: seq<Step>, version: u32)

  /** `sort.SearchStrings`: the first position whose key is not below `x`. */
  method SearchStrings(keys: seq<str>, x: str) returns (lo: nat)
    requires Sorting.Ascending(keys)
    ensures lo <= |keys|
    ensures forall i :: 0 <= i < lo ==> Less(keys[i], x)
    ensures forall i :: lo <= i < |keys| ==> !Less(keys[i], x)
  {
    lo := 0;
    var hi := |keys|;
    while lo < hi
      invariant 0 <= lo <= hi <= |keys|
      invariant forall i :: 0 <= i < lo ==> Less(keys[i], x)
      invariant forall i :: hi <= i < |keys| ==> !Less(keys[i], x)
    {
      var mid := (lo + hi) / 2;
      if Less(keys[mid], x) {
        forall i | 0 <= i < mid
          ensures Less(keys[i], x)
        {
          LessTransitive(keys[i], keys[mid], x);
        }
        lo := mid + 1;
      } else {
        forall i | mid < i < |keys|
          ensures !Less(keys[i], x)
        {
          if Less(keys[i], x) {
            LessTransitive(keys[mid], keys[i], x);
          }
        }
        hi := mid;
      }
    }
  }

  ghost function LeafDigests(items: map<str, str>): seq<str> {
    Digests(LeavesOf(MapItems(items)))
  }

  ghost function ProofFor(items: map<str, str>, key: str): MerkleProof
    requires key in items
  {
    MerkleProof(key, items[key], MapRoot(items), Path(LeafDigests(items), KeyIndex(items, key)), 1)
  }

  /** One round of the loop of `Proof`: pad, record the sibling, hash in pairs. */
  method ProofLevel(hashes: seq<str>, index: nat) returns (step: Step, next: seq<str>)
    requires index < |hashes| && |hashes| > 1
    ensures step == SiblingStep(hashes, index)
    ensures next == Up(hashes)
  {
    var padded := hashes;
    if |hashes| % 2 == 1 {
      padded := hashes + [hashes[|hashes| - 1]];
    }
    var sibling := Sibling(index);
    step := Step(padded[sibling], sibling < index);
    next := [];
    var i := 0;
    while i < |padded|
      invariant i == 2 * |next| && i <= |padded|
      invariant forall k :: 0 <= k < |next| ==> next[k] == HashPair(hashes, 2 * k)
    {
      next := next + [Hash(padded[i] + padded[i + 1])];
      i := i + 2;
    }
  }

  /** The level loop of `Proof`. */
  method ProofSteps(leaves: seq<str>, position: nat) returns (steps: seq<Step>, root: str)
    requires position < |leaves|
    ensures steps == Path(leaves, position) && root == Fold(leaves)
  {
    var hashes, index := leaves, position;
    steps := [];
    while |hashes| > 1
      invariant hashes != [] && 0 <= index < |hashes|
      invariant Fold(hashes) == Fold(leaves)
      invariant steps + Path(hashes, index) == Path(leaves, position)
      decreases |hashes|
    {
      var step, next := ProofLevel(hashes, index);
      steps := steps + [step];
      index := index / 2;
      hashes := next;
    }
    root := hashes[0];
  }

  method Proof(items: map<str, str>, key: str) returns (p: Option<MerkleProof>)
    ensures p.None? <==> key !in items
    ensures p.Some? ==> p.value == ProofFor(items, key)
  {
    if key !in items {
      return None;
    }
    var keys := Sorting.SortedKeys(items);
    Sorting.InOrderMembers(items.Keys);
    var index := SearchStrings(keys, key);
    SearchFinds(keys, key, index, KeyIndex(items, key));
    var hashes := seq(|keys|, i requires 0 <= i < |keys| => Hash(keys[i] + [EQUALS] + items[keys[i]]));
    assert hashes == LeafDigests(items);
    LeafDigestsFold(items);
    var steps, root := ProofSteps(hashes, index);
    p := Some(MerkleProof(key, items[key], root, steps, 1));
  }

  lemma LeafDigestsFold(items: map<str, str>)
    requires items != map[]
    ensures |LeafDigests(items)| == |items| && AllDigests(LeafDigests(items))
    ensures Fold(LeafDigests(items)) == MapRoot(items)
  {
    MapItemsExact(items);
    FoldOfDigests(LeavesOf(MapItems(items)));
  }

  lemma SearchFinds(keys: seq<str>, key: str, found: nat, index: nat)
    requires Sorting.Ascending(keys) && index < |keys| && keys[index] == key && found <= |keys|
    requires forall i :: 0 <= i < found ==> Less(keys[i], key)
    requires forall i :: found <= i < |keys| ==> !Less(keys[i], key)
    ensures found == index
  {
    LessIrreflexive(key);
    assert forall i :: 0 <= i < index ==> Less(keys[i], key);
    assert found < |keys| ==> !Less(keys[found], key);
  }

  function ProofString(p: MerkleProof): str {
    Preimage(Entry(p.key, p.value))
  }

  ghost predicate Verifies(p: MerkleProof) {
    && p.key != [] && p.root != [] && p.version != 0
    && (forall i :: 0 <= i < |p.steps| ==> p.steps[i].hash != [])
    && Climb(Hash(ProofString(p)), p.steps) == p.root
  }

  /** What makes a proof fail whatever its climb: no key, no root, no version, an empty step hash. */
  lemma {:induction false} ProofGuards(p: MerkleProof)
    ensures p.key == [] || p.root == [] || p.version == 0 ==> !Verifies(p)
    ensures (exists i :: 0 <= i < |p.steps| && p.steps[i].hash == []) ==> !Verifies(p)
    ensures p.key != [] && p.version != 0 && (forall i :: 0 <= i < |p.steps| ==> p.steps[i].hash != []) ==>
              (Verifies(p) <==> p.root == Climb(Hash(p.key + [EQUALS] + p.value), p.steps))
  {
    ClimbNotEmpty(Hash(ProofString(p)), p.steps);
  }

  lemma {:induction false} ClimbNotEmpty(start: str, steps: seq<Step>)
    requires start != []
    ensures Climb(start, steps) != []
  {
  }

  method Advance(current: str, step: Step) returns (next: str)
    ensures next == Combine(current, step)
  {
    if step.left {
      next := Hash(step.hash + current);
    } else {
      next := Hash(current + step.hash);
    }
  }

  /** The loop of `VerifyProof`: the digest after all steps, unless one has no hash. */
  method Follow(start: str, steps: seq<Step>) returns (top: Option<str>)
    ensures top.Some? <==> forall i :: 0 <= i < |steps| ==> steps[i].hash != []
    ensures top.Some? ==> top.value == Climb(start, steps)
  {
    var current := start;
    for i := 0 to |steps|
      invariant current == Climb(start, steps[..i])
      invariant forall j :: 0 <= j < i ==> steps[j].hash != []
    {
      if steps[i].hash == [] {
        return None;
      }
      current := Advance(current, steps[i]);
      ClimbNext(start, steps, i);
    }
    assert steps[..|steps|] == steps;
    return Some(current);
  }

  method VerifyProof(p: MerkleProof) returns (ok: bool)
    ensures ok <==> Verifies(p)
  {
    if p.key == [] || p.root == [] || p.version == 0 {
      return false;
    }
    var top := Follow(Hash(p.key + [EQUALS] + p.value), p.steps);
    ok := top.Some? && top.value == p.root;
  }

  lemma ProofClimbs(items: map<str, str>, key: str)
    requires key in items
    ensures Climb(Hash(key + [EQUALS] + items[key]), ProofFor(items, key).steps) == MapRoot(items)
    ensures DigestSteps(ProofFor(items, key).steps)
    ensures |ProofFor(items, key).steps| == LevelsAbove(|items|)
  {
    var ds, index := LeafDigests(items), KeyIndex(items, key);
    LeafDigestsFold(items);
    ClimbPath(ds, index);
    assert ds[index] == Hash(ProofString(ProofFor(items, key)));
    PathDigests(ds, index);
  }

  /**
    Completeness: the proof made for a key verifies unless the key is empty, its root is the root of the pointer
    tree, and it has as many steps as the tree has levels, the least `s` with `2^s >= |items|`.
   */
  lemma ProofComplete(items: map<str, str>, key: str, s: nat)
    requires key in items
    ensures Verifies(ProofFor(items, key)) <==> key != []
    ensures var p := ProofFor(items, key);
      p.key == key && p.value == items[key] && p.root == MapRoot(items) && p.version == 1
    ensures DigestSteps(ProofFor(items, key).steps)
    ensures Pow2(s) >= |items| <==> s >= |ProofFor(items, key).steps|
  {
    ProofClimbs(items, key);
    LevelsAboveIsCeilLog2(|items|, s);
  }

  // ----- Soundness

  ghost function ProofHashed(p: MerkleProof): set<str> {
    ClimbHashed(ProofString(p), p.steps)
  }

  predicate EqualsFreeSteps(steps: seq<Step>) {
    forall i :: 0 <= i < |steps| ==> EQUALS !in steps[i].hash
  }

  lemma EqualsFreeStepString(pre: str, steps: seq<Step>, c: str)
    requires EqualsFreeSteps(steps) && c in StepHashed(pre, steps)
    ensures EQUALS !in c
  {
    StepString(pre, steps, c);
    var i, current :| 0 <= i < |steps| && IsDigest(current) && c == Joined(current, steps[i]);
    assert EQUALS !in current;
  }

  ghost predicate HoldsString(items: map<str, str>, s: str) {
    exists k :: k in items && s == Preimage(Entry(k, items[k]))
  }

  lemma {:induction false} ProofStartsAtEntry(items: map<str, str>, p: MerkleProof)
    requires Verifies(p) && p.root == MapRoot(items)
    requires CollisionFree(MapHashed(items), ProofHashed(p))
    requires !Meets(StepHashed(ProofString(p), p.steps), MapSpread(items))
    ensures HoldsString(items, ProofString(p))
  {
    PreimageNotHex(Entry(p.key, p.value));
    ClimbStartsAtLeaf(MapItems(items), ProofString(p), p.steps);
    SpreadOfMap(items, ProofString(p));
  }

  /** Whatever the number of steps, a proof for a map's root whose step hashes lack `=` proves a string of the map. */
  lemma {:induction false} InclusionSound(items: map<str, str>, p: MerkleProof)
    requires Verifies(p) && p.root == MapRoot(items) && EqualsFreeSteps(p.steps)
    requires CollisionFree(MapHashed(items), ProofHashed(p))
    ensures HoldsString(items, ProofString(p))
  {
    forall c | c in StepHashed(ProofString(p), p.steps)
      ensures c !in MapSpread(items)
    {
      EqualsFreeStepString(ProofString(p), p.steps, c);
      SpreadOfMap(items, c);
    }
    ProofStartsAtEntry(items, p);
  }

  /** 64 hex digits first or last: the shape of a digest beside something else. */
  predicate HexAtEnd(s: str) {
    |s| >= 64 && (AllHex(s[..64]) || AllHex(s[|s| - 64..]))
  }

  lemma StepStringHexAtEnd(pre: str, steps: seq<Step>, c: str)
    requires c in StepHashed(pre, steps)
    ensures HexAtEnd(c)
  {
    StepString(pre, steps, c);
    var i, current :| 0 <= i < |steps| && IsDigest(current) && c == Joined(current, steps[i]);
    assert if steps[i].left then c[|c| - 64..] == current else c[..64] == current;
  }

  /** Whatever the step hashes, such a proof proves a string of the map when none of these begins or ends in hex. */
  lemma {:induction false} InclusionSoundAnySteps(items: map<str, str>, p: MerkleProof)
    requires Verifies(p) && p.root == MapRoot(items)
    requires forall k :: k in items ==> !HexAtEnd(Preimage(Entry(k, items[k])))
    requires CollisionFree(MapHashed(items), ProofHashed(p))
    ensures HoldsString(items, ProofString(p))
  {
    forall c | c in StepHashed(ProofString(p), p.steps)
      ensures c !in MapSpread(items)
    {
      StepStringHexAtEnd(ProofString(p), p.steps, c);
      SpreadOfMap(items, c);
    }
    ProofStartsAtEntry(items, p);
  }

  ghost predicate HoldsEntry(items: map<str, str>, p: MerkleProof) {
    p.key in items && items[p.key] == p.value
  }

  lemma StringIsEntry(items: map<str, str>, p: MerkleProof)
    requires EqualsFreeKeys(items) && EQUALS !in p.key
    requires HoldsString(items, ProofString(p))
    ensures HoldsEntry(items, p)
  {
    var k :| k in items && ProofString(p) == Preimage(Entry(k, items[k]));
    EntryPreimageInjective(Entry(p.key, p.value), Entry(k, items[k]));
  }

  lemma {:induction false} InclusionSoundForKey(items: map<str, str>, p: MerkleProof)
    requires Verifies(p) && p.root == MapRoot(items) && EqualsFreeSteps(p.steps)
    requires CollisionFree(MapHashed(items), ProofHashed(p))
    requires EqualsFreeKeys(items) && EQUALS !in p.key
    ensures HoldsEntry(items, p)
  {
    InclusionSound(items, p);
    StringIsEntry(items, p);
  }

  // ----- The exact condition on step hashes

  lemma JoinedKeepsEquals(current: str, s: Step)
    requires EQUALS in s.hash
    ensures EQUALS in Joined(current, s)
  {
    var j :| 0 <= j < |s.hash| && s.hash[j] == EQUALS;
    assert Joined(current, s)[if s.left then j else |current| + j] == EQUALS;
  }

  /** The string hashed last. */
  function LastString(p: MerkleProof): str {
    StringAt(ProofString(p), p.steps, |p.steps|)
  }

  /** Any string with a `=` is the only string of a map. */
  lemma StringAsMap(c: str) returns (items: map<str, str>)
    requires EQUALS in c
    ensures EqualsFreeKeys(items) && MapRoot(items) == Hash(c) && MapHashed(items) == {c}
    ensures forall k :: k in items ==> Preimage(Entry(k, items[k])) == c
  {
    var x, y := CutAtFirst(c, EQUALS);
    items := map[x := y];
    OneEntryMap(x, y);
  }

  /**
    A last step hash holding `=` makes the string hashed last a leaf string as well: some map of one entry has the
    stated root and, unless the climb never left its first string, does not hold what the proof proves.
   */
  lemma {:induction false} LastStepAsEntry(p: MerkleProof) returns (items: map<str, str>)
    requires Verifies(p) && p.steps != [] && EQUALS in p.steps[|p.steps| - 1].hash
    ensures EqualsFreeKeys(items) && MapRoot(items) == p.root && MapHashed(items) == {LastString(p)}
    ensures HoldsEntry(items, p) ==> LastString(p) == ProofString(p)
  {
    JoinedKeepsEquals(Climb(Hash(ProofString(p)), p.steps[..|p.steps| - 1]), p.steps[|p.steps| - 1]);
    items := StringAsMap(LastString(p));
    LastStringHash(ProofString(p), p.steps);
  }

  /** The proof proves its entry of every map, of `=`-free keys, with the stated root and without a collision. */
  ghost predicate Conclusive(p: MerkleProof) {
    forall items ::
      MapRoot(items) == p.root && EqualsFreeKeys(items) && CollisionFree(MapHashed(items), ProofHashed(p)) ==>
        HoldsEntry(items, p)
  }

  /** A map's root is the digest of one of its hashed strings: nothing, an entry, or two digests. */
  lemma MapTop(items: map<str, str>) returns (top: str)
    ensures top in MapHashed(items) && Hash(top) == MapRoot(items)
    ensures HoldsString(items, top) || top == [] || (|top| == 128 && AllHex(top))
  {
    if MapItems(items) == [] {
      top := [];
    } else {
      var t := TreeOf(MapItems(items));
      top := TopPreimage(t);
      SpreadOfMap(items, top);
    }
  }

  /** Two hashed strings with the root of the map are one string, of the kinds a map can have at its root. */
  lemma RootStrings(items: map<str, str>, hashed: set<str>, x: str, y: str)
    requires CollisionFree(MapHashed(items), hashed) && x in hashed && y in hashed
    requires Hash(x) == MapRoot(items) && Hash(y) == MapRoot(items)
    ensures x == y && (HoldsString(items, x) || x == [] || (|x| == 128 && AllHex(x)))
  {
    var top := MapTop(items);
    assert x == top && y == top;
  }

  lemma LastStringOf(p: MerkleProof)
    requires p.steps != []
    ensures exists current :: IsDigest(current) && LastString(p) == Joined(current, p.steps[|p.steps| - 1])
  {
    ClimbIsDigest(ProofString(p), p.steps[..|p.steps| - 1]);
    assert LastString(p) == Joined(Climb(Hash(ProofString(p)), p.steps[..|p.steps| - 1]), p.steps[|p.steps| - 1]);
  }

  lemma PairOfDigests(current: str, s: Step)
    requires IsDigest(current) && |Joined(current, s)| == 128 && AllHex(Joined(current, s))
    ensures IsDigest(s.hash)
  {
    var c := Joined(current, s);
    assert s.hash == if s.left then c[..64] else c[64..];
  }

  lemma EntryHasEquals(items: map<str, str>, current: str, s: Step)
    requires IsDigest(current) && HoldsString(items, Joined(current, s))
    ensures EQUALS in s.hash
  {
    var c := Joined(current, s);
    var k :| k in items && c == Preimage(Entry(k, items[k]));
    assert c[|k|] == EQUALS;
    assert EQUALS !in current;
    assert s.hash[if s.left then |k| else |k| - 64] == EQUALS;
  }

  /** A string hashed in the climb, other than the last, has the digest of the last: the climb exhibits a collision. */
  ghost predicate SelfColliding(p: MerkleProof) {
    !CollisionFree({LastString(p)}, ProofHashed(p))
  }

  lemma {:induction false} LastStepInconclusive(p: MerkleProof)
    requires Verifies(p) && p.steps != [] && EQUALS in p.steps[|p.steps| - 1].hash
    requires LastString(p) != ProofString(p) && !SelfColliding(p)
    ensures !Conclusive(p)
  {
    var items := LastStepAsEntry(p);
    assert !HoldsEntry(items, p);
  }

  /** What a step hash of another shape than a digest leaves possible. */
  lemma {:induction false} ProofHoldsString(items: map<str, str>, p: MerkleProof)
    requires Verifies(p) && p.steps != [] && !IsDigest(p.steps[|p.steps| - 1].hash)
    requires EQUALS !in p.steps[|p.steps| - 1].hash || LastString(p) == ProofString(p) || SelfColliding(p)
    requires MapRoot(items) == p.root && CollisionFree(MapHashed(items), ProofHashed(p))
    ensures HoldsString(items, ProofString(p))
  {
    var last := p.steps[|p.steps| - 1];
    LastStringHash(ProofString(p), p.steps);
    RootStrings(items, ProofHashed(p), LastString(p), LastString(p));
    if EQUALS !in last.hash {
      LastStringOf(p);
      var current :| IsDigest(current) && LastString(p) == Joined(current, last);
      if HoldsString(items, LastString(p)) {
        EntryHasEquals(items, current, last);
      } else {
        PairOfDigests(current, last);
      }
    } else if LastString(p) == ProofString(p) {
      PreimageNotHex(Entry(p.key, p.value));
    } else {
      var x :| x in ProofHashed(p) && Hash(x) == Hash(LastString(p)) && x != LastString(p);
      RootStrings(items, ProofHashed(p), x, LastString(p));
    }
  }

  /**
    `VerifyProof` checks only that step hashes are not empty.  Among the proofs whose last step hash is no digest,
    whatever the steps below, and those without `=` in any step hash, exactly those are conclusive whose last step
    hash lacks `=`, but for climbs that end in their first string or exhibit a collision.
   */
  lemma {:induction false} ConclusiveIff(p: MerkleProof)
    requires Verifies(p) && EQUALS !in p.key
    requires p.steps != [] && (EqualsFreeSteps(p.steps) || !IsDigest(p.steps[|p.steps| - 1].hash))
    ensures Conclusive(p) <==>
            EQUALS !in p.steps[|p.steps| - 1].hash || LastString(p) == ProofString(p) || SelfColliding(p)
  {
    var last := p.steps[|p.steps| - 1];
    if EQUALS in last.hash && LastString(p) != ProofString(p) && !SelfColliding(p) {
      LastStepInconclusive(p);
    } else {
      forall items |
        MapRoot(items) == p.root && EqualsFreeKeys(items) && CollisionFree(MapHashed(items), ProofHashed(p))
        ensures HoldsEntry(items, p)
      {
        if EqualsFreeSteps(p.steps) {
          InclusionSound(items, p);
        } else {
          ProofHoldsString(items, p);
        }
        StringIsEntry(items, p);
      }
    }
  }

  /**
    Lower steps: where the string of an entry is some digest of `k=v` beside a step hash, the proof of that entry
    with the step put below it is a proof of `k` and `v`, in a map of any size and whether or not it holds them.
   */
  lemma {:induction false} LowerStepVerifies(items: map<str, str>, x: str, k: str, v: str, s: Step)
    requires x in items && k != [] && s.hash != []
    requires Joined(Hash(k + [EQUALS] + v), s) == x + [EQUALS] + items[x]
    ensures Verifies(MerkleProof(k, v, MapRoot(items), [s] + ProofFor(items, x).steps, 1))
  {
    ProofClimbs(items, x);
    ClimbFirst(Hash(k + [EQUALS] + v), s, ProofFor(items, x).steps);
    var p := MerkleProof(k, v, MapRoot(items), [s] + ProofFor(items, x).steps, 1);
    forall i | 0 <= i < |p.steps|
      ensures p.steps[i].hash != []
    {
      if i > 0 {
        assert p.steps[i] == ProofFor(items, x).steps[i - 1];
      }
    }
  }

  /** So any map can be given an entry with which it has a proof, on either side, of a key it need not hold. */
  lemma {:induction false} ForeignKeyVerifies(items: map<str, str>, x: str, k: str, v: str)
    requires k != [] && k !in items
    ensures var m := items[x := Hash(k + [EQUALS] + v)];
      && Verifies(MerkleProof(k, v, MapRoot(m), [Step(x + [EQUALS], true)] + ProofFor(m, x).steps, 1))
      && (k != x ==> k !in m)
    ensures var d := Hash(k + [EQUALS] + v);
      var m := items[d := x];
      && Verifies(MerkleProof(k, v, MapRoot(m), [Step([EQUALS] + x, false)] + ProofFor(m, d).steps, 1))
      && (k != d ==> k !in m)
  {
    var d := Hash(k + [EQUALS] + v);
    LowerStepVerifies(items[x := d], x, k, v, Step(x + [EQUALS], true));
    Regroup(d, [EQUALS], x);
    LowerStepVerifies(items[d := x], d, k, v, Step([EQUALS] + x, false));
  }
}
