/**
  The level-by-level form of the tree: one level of nodes or digests at a time, each half as long as the one below,
  and the sibling path of one leaf through those levels.
 */
module MerkleLevels {
  import opened Bytes
  import opened Hashing
  import opened MerkleTree
  import opened Powers

  // ----- Levels of trees

  /** The index paired with the even index `i` in a level of `n`: the last of an odd level is paired with itself. */
  function Partner(i: nat, n: nat): nat {
    if i + 1 < n then i + 1 else i
  }

  function Parent(ts: seq<Tree>, i: nat): Tree
    requires i < |ts|
  {
    if Partner(i, |ts|) == i then Dup(ts[i]) else Two(ts[i], ts[i + 1])
  }

  function PairUp(ts: seq<Tree>): (us: seq<Tree>)
    ensures |us| == (|ts| + 1) / 2
  {
    seq((|ts| + 1) / 2, i requires 0 <= i < (|ts| + 1) / 2 => Parent(ts, 2 * i))
  }

  function Build(ts: seq<Tree>): Tree
    requires ts != []
    decreases |ts|
  {
    if |ts| == 1 then ts[0] else Build(PairUp(ts))
  }

  function LeavesOf(items: seq<Item>): (ts: seq<Tree>)
    ensures |ts| == |items|
  {
    seq(|items|, i requires 0 <= i < |items| => Leaf(items[i]))
  }

  function TreeOf(items: seq<Item>): Tree
    requires items != []
  {
    Build(LeavesOf(items))
  }

  function ItemsOfLevel(ts: seq<Tree>): seq<Item> {
    if ts == [] then [] else Items(ts[0]) + ItemsOfLevel(ts[1..])
  }

  lemma {:induction false} PairUpKeepsItems(ts: seq<Tree>)
    ensures ItemsOfLevel(PairUp(ts)) == ItemsOfLevel(ts)
  {
    if |ts| >= 2 {
      PairUpKeepsItems(ts[2..]);
      assert PairUp(ts)[1..] == PairUp(ts[2..]);
      assert ts[1..][1..] == ts[2..];
    } else if |ts| == 1 {
      assert PairUp(ts) == [Dup(ts[0])];
    }
  }

  lemma {:induction false} BuildKeepsItems(ts: seq<Tree>)
    requires ts != []
    ensures Items(Build(ts)) == ItemsOfLevel(ts)
    decreases |ts|
  {
    if |ts| > 1 {
      PairUpKeepsItems(ts);
      BuildKeepsItems(PairUp(ts));
    }
  }

  lemma {:induction false} ItemsOfLeaves(items: seq<Item>)
    ensures ItemsOfLevel(LeavesOf(items)) == items
  {
    if items != [] {
      ItemsOfLeaves(items[1..]);
      assert LeavesOf(items)[1..] == LeavesOf(items[1..]);
      assert items == [items[0]] + items[1..];
    }
  }

  lemma ItemsOfTree(items: seq<Item>)
    requires items != []
    ensures Items(TreeOf(items)) == items
  {
    BuildKeepsItems(LeavesOf(items));
    ItemsOfLeaves(items);
  }

  // ----- Depth

  /** The number of levels above a level of `n` nodes. */
  function LevelsAbove(n: nat): nat {
    if n <= 1 then 0 else 1 + LevelsAbove((n + 1) / 2)
  }

  lemma {:induction false} LevelsAboveIsCeilLog2(n: nat, s: nat)
    requires n > 0
    ensures Pow2(s) >= n <==> s >= LevelsAbove(n)
    decreases n
  {
    if n > 1 && s > 0 {
      LevelsAboveIsCeilLog2((n + 1) / 2, s - 1);
    }
  }

  predicate PerfectLevel(ts: seq<Tree>, depth: nat) {
    forall i :: 0 <= i < |ts| ==> Perfect(ts[i], depth)
  }

  lemma {:induction false} BuildPerfect(ts: seq<Tree>, depth: nat)
    requires ts != [] && PerfectLevel(ts, depth)
    ensures Perfect(Build(ts), depth + LevelsAbove(|ts|))
    decreases |ts|
  {
    if |ts| > 1 {
      BuildPerfect(PairUp(ts), depth + 1);
    }
  }

  // ----- Levels of digests

  function Digests(ts: seq<Tree>): (ds: seq<str>)
    ensures |ds| == |ts| && forall i :: 0 <= i < |ds| ==> ds[i] == Digest(ts[i])
  {
    seq(|ts|, i requires 0 <= i < |ts| => Digest(ts[i]))
  }

  function HashPair(ds: seq<str>, i: nat): str
    requires i < |ds|
  {
    Hash(ds[i] + ds[Partner(i, |ds|)])
  }

  /** One level up: consecutive digests hashed in pairs, an odd last one with itself. */
  function Up(ds: seq<str>): (us: seq<str>)
    ensures |us| == (|ds| + 1) / 2
  {
    seq((|ds| + 1) / 2, i requires 0 <= i < (|ds| + 1) / 2 => HashPair(ds, 2 * i))
  }

  function Fold(ds: seq<str>): str
    requires ds != []
    decreases |ds|
  {
    if |ds| == 1 then ds[0] else Fold(Up(ds))
  }

  lemma UpOfDigests(ts: seq<Tree>)
    ensures Up(Digests(ts)) == Digests(PairUp(ts))
  {
  }

  /** Folding lists of digests computes the digest of the tree. */
  lemma {:induction false} FoldOfDigests(ts: seq<Tree>)
    requires ts != []
    ensures Fold(Digests(ts)) == Digest(Build(ts))
    decreases |ts|
  {
    if |ts| > 1 {
      UpOfDigests(ts);
      FoldOfDigests(PairUp(ts));
    }
  }

  // ----- Paths

  datatype Step = Step(hash: str, left: bool)

  /** The string hashed at a step. */
  function Joined(current: str, s: Step): str {
    if s.left then s.hash + current else current + s.hash
  }

  function Combine(current: str, s: Step): str {
    Hash(Joined(current, s))
  }

  /** The digest reached from `start` after all of `steps`. */
  function Climb(start: str, steps: seq<Step>): str {
    if steps == [] then start
    else Combine(Climb(start, steps[..|steps| - 1]), steps[|steps| - 1])
  }

  /** The other index of the pair `index` belongs to: `index ^ 1`. */
  function Sibling(index: nat): nat {
    if index % 2 == 0 then index + 1 else index - 1
  }

  function SiblingStep(ds: seq<str>, index: nat): Step
    requires index < |ds|
  {
    var sibling := Sibling(index);
    Step(if sibling < |ds| then ds[sibling] else ds[index], sibling < index)
  }

  function Path(ds: seq<str>, index: nat): seq<Step>
    requires index < |ds|
    decreases |ds|
  {
    if |ds| == 1 then [] else [SiblingStep(ds, index)] + Path(Up(ds), index / 2)
  }

  lemma UpAt(ds: seq<str>, i: nat)
    requires i < |ds|
    ensures Up(ds)[i / 2] == Combine(ds[i], SiblingStep(ds, i))
  {
    assert i == 2 * (i / 2) || i == 2 * (i / 2) + 1;
  }

  lemma ClimbLast(start: str, steps: seq<Step>, s: Step)
    ensures Climb(start, steps + [s]) == Combine(Climb(start, steps), s)
  {
    assert (steps + [s])[..|steps|] == steps;
  }

  lemma ClimbNext(start: str, steps: seq<Step>, i: nat)
    requires i < |steps|
    ensures Climb(start, steps[..i + 1]) == Combine(Climb(start, steps[..i]), steps[i])
  {
    assert steps[..i + 1][..i] == steps[..i];
  }

  lemma {:induction false} ClimbFirst(start: str, s: Step, steps: seq<Step>)
    ensures Climb(start, [s] + steps) == Climb(Combine(start, s), steps)
  {
    if steps == [] {
      ClimbLast(start, [], s);
      assert [s] + [] == [] + [s];
    } else {
      var init, last := steps[..|steps| - 1], steps[|steps| - 1];
      ClimbFirst(start, s, init);
      ClimbLast(start, [s] + init, last);
      ClimbLast(Combine(start, s), init, last);
      assert steps == init + [last] && [s] + steps == ([s] + init) + [last];
    }
  }

  /** Climbing the sibling path of any position reaches the folded root. */
  lemma {:induction false} ClimbPath(ds: seq<str>, index: nat)
    requires index < |ds|
    ensures Climb(ds[index], Path(ds, index)) == Fold(ds)
    ensures |Path(ds, index)| == LevelsAbove(|ds|)
    decreases |ds|
  {
    if |ds| > 1 {
      UpAt(ds, index);
      ClimbPath(Up(ds), index / 2);
      ClimbFirst(ds[index], SiblingStep(ds, index), Path(Up(ds), index / 2));
    }
  }

  predicate AllDigests(ds: seq<str>) {
    forall i :: 0 <= i < |ds| ==> IsDigest(ds[i])
  }

  predicate DigestSteps(steps: seq<Step>) {
    forall i :: 0 <= i < |steps| ==> IsDigest(steps[i].hash)
  }

  lemma {:induction false} PathDigests(ds: seq<str>, index: nat)
    requires index < |ds| && AllDigests(ds)
    ensures DigestSteps(Path(ds, index))
    decreases |ds|
  {
    if |ds| > 1 {
      PathDigests(Up(ds), index / 2);
    }
  }

  // ----- Roots of lists

  /** What a list of items commits to; an empty one to the digest of the empty string. */
  ghost function ListRoot(items: seq<Item>): (root: str)
    ensures IsDigest(root)
  {
    if items == [] then Hash([]) else Digest(TreeOf(items))
  }

  /** The strings hashed while computing the root of a list. */
  ghost function ListHashed(items: seq<Item>): set<str> {
    if items == [] then {[]} else Hashed(TreeOf(items))
  }

  /** The hashed strings of the items as the tree sees them: padded to a power of two by repeating odd tails. */
  ghost function ListSpread(items: seq<Item>): seq<str> {
    if items == [] then [] else Spread(TreeOf(items))
  }

  lemma ListSpreadMembers(items: seq<Item>, p: str)
    ensures p in ListSpread(items) <==> p in Preimages(items)
  {
    if items != [] {
      SpreadMembers(TreeOf(items), p);
      ItemsOfTree(items);
    }
  }

  /** No tree has the digest of the empty string. */
  lemma EmptyRootIsSeparate(t: Tree)
    requires CollisionFree(Hashed(t), {[]})
    ensures Digest(t) != Hash([])
  {
    var top := TopPreimage(t);
    if t.Leaf? {
      PreimageNotHex(t.item);
    } else {
      assert |top| == 128;
    }
  }

  lemma TreeOfPerfect(items: seq<Item>)
    requires items != []
    ensures Perfect(TreeOf(items), LevelsAbove(|items|))
    ensures |ListSpread(items)| == Pow2(LevelsAbove(|items|))
  {
    assert PerfectLevel(LeavesOf(items), 0);
    BuildPerfect(LeavesOf(items), 0);
    PerfectSpread(TreeOf(items), LevelsAbove(|items|));
  }

  lemma {:induction false} EqualRootsEqualSpreads(a: seq<Item>, b: seq<Item>)
    requires CollisionFree(ListHashed(a), ListHashed(b))
    requires ListRoot(a) == ListRoot(b)
    ensures ListSpread(a) == ListSpread(b)
  {
    if a == [] && b != [] {
      assert CollisionFree(ListHashed(b), ListHashed(a));
      EmptyRootIsSeparate(TreeOf(b));
    } else if a != [] && b == [] {
      EmptyRootIsSeparate(TreeOf(a));
    } else if a != [] && b != [] {
      EqualDigestsEqualSpreads(TreeOf(a), TreeOf(b));
    }
  }

  /** This direction needs nothing of the hash. */
  lemma {:induction false} EqualSpreadsEqualRoots(a: seq<Item>, b: seq<Item>)
    requires ListSpread(a) == ListSpread(b)
    ensures ListRoot(a) == ListRoot(b)
  {
    if a != [] && b != [] {
      TreeOfPerfect(a);
      TreeOfPerfect(b);
      Pow2Injective(LevelsAbove(|a|), LevelsAbove(|b|));
      EqualSpreadsEqualDigests(TreeOf(a), TreeOf(b), LevelsAbove(|a|));
    }
  }

  /** Exactly when two lists share a root: when padding them gives the same strings. */
  lemma {:induction false} RootBindsSpread(a: seq<Item>, b: seq<Item>)
    requires CollisionFree(ListHashed(a), ListHashed(b))
    ensures ListRoot(a) == ListRoot(b) <==> ListSpread(a) == ListSpread(b)
  {
    if ListRoot(a) == ListRoot(b) {
      EqualRootsEqualSpreads(a, b);
    }
    if ListSpread(a) == ListSpread(b) {
      EqualSpreadsEqualRoots(a, b);
    }
  }

  // ----- The root in terms of the list

  /** Both positions below each of `ps` in a level of `n`, the last of an odd level in place of a missing one. */
  function Below(ps: seq<nat>, n: nat): (qs: seq<nat>)
    requires n > 0
    ensures |qs| == 2 * |ps| && forall i :: 0 <= i < |qs| ==> qs[i] < n
  {
    if ps == [] then []
    else [Clamp(2 * ps[0], n), Clamp(2 * ps[0] + 1, n)] + Below(ps[1..], n)
  }

  function Clamp(i: nat, n: nat): (j: nat)
    requires n > 0
    ensures j < n
  {
    if i < n then i else n - 1
  }

  lemma {:induction false} BelowAt(ps: seq<nat>, n: nat, i: nat)
    requires n > 0 && i < 2 * |ps|
    ensures Below(ps, n)[i] == Clamp(2 * ps[i / 2] + i % 2, n)
  {
    if i >= 2 {
      BelowAt(ps[1..], n, i - 2);
      assert ps[1..][(i - 2) / 2] == ps[i / 2];
    }
  }

  /** Which of `n` items stands at each place of the padded list. */
  function Padded(n: nat): (ps: seq<nat>)
    requires n > 0
    ensures |ps| == Pow2(LevelsAbove(n)) && forall i :: 0 <= i < |ps| ==> ps[i] < n
    decreases n
  {
    if n == 1 then [0] else Below(Padded((n + 1) / 2), n)
  }

  /** The items themselves come first, so padding only adds at the end. */
  lemma {:induction false} PaddedStarts(n: nat, i: nat)
    requires i < n
    ensures n <= |Padded(n)| && Padded(n)[i] == i
    decreases n
  {
    LevelsAboveIsCeilLog2(n, LevelsAbove(n));
    if n > 1 {
      PaddedStarts((n + 1) / 2, i / 2);
      BelowAt(Padded((n + 1) / 2), n, i);
      assert i == 2 * (i / 2) || i == 2 * (i / 2) + 1;
    }
  }

  function Gather(ts: seq<Tree>, ps: seq<nat>): seq<str>
    requires forall i :: 0 <= i < |ps| ==> ps[i] < |ts|
  {
    if ps == [] then [] else Spread(ts[ps[0]]) + Gather(ts, ps[1..])
  }

  lemma {:induction false} GatherBelow(ts: seq<Tree>, ps: seq<nat>)
    requires |ts| > 1 && forall i :: 0 <= i < |ps| ==> ps[i] < |PairUp(ts)|
    ensures Gather(PairUp(ts), ps) == Gather(ts, Below(ps, |ts|))
  {
    if ps != [] {
      var rest, p := ps[1..], ps[0];
      GatherBelow(ts, rest);
      GatherTwo(ts, Clamp(2 * p, |ts|), Clamp(2 * p + 1, |ts|), Below(rest, |ts|));
      assert Spread(PairUp(ts)[p]) == Spread(ts[Clamp(2 * p, |ts|)]) + Spread(ts[Clamp(2 * p + 1, |ts|)]);
    }
  }

  lemma GatherFirst(ts: seq<Tree>, a: nat, rest: seq<nat>)
    requires a < |ts| && forall i :: 0 <= i < |rest| ==> rest[i] < |ts|
    ensures Gather(ts, [a] + rest) == Spread(ts[a]) + Gather(ts, rest)
  {
    assert ([a] + rest)[1..] == rest;
  }

  lemma GatherTwo(ts: seq<Tree>, a: nat, b: nat, rest: seq<nat>)
    requires a < |ts| && b < |ts| && forall i :: 0 <= i < |rest| ==> rest[i] < |ts|
    ensures Gather(ts, [a, b] + rest) == Spread(ts[a]) + Spread(ts[b]) + Gather(ts, rest)
  {
    GatherFirst(ts, b, rest);
    GatherFirst(ts, a, [b] + rest);
    assert [a, b] + rest == [a] + ([b] + rest);
    Regroup(Spread(ts[a]), Spread(ts[b]), Gather(ts, rest));
  }

  lemma {:induction false} SpreadOfBuild(ts: seq<Tree>)
    requires ts != []
    ensures Spread(Build(ts)) == Gather(ts, Padded(|ts|))
    decreases |ts|
  {
    if |ts| == 1 {
      assert Padded(1)[1..] == [];
    } else {
      SpreadOfBuild(PairUp(ts));
      GatherBelow(ts, Padded(|PairUp(ts)|));
    }
  }

  /** The strings of the items at the places `ps`. */
  function Picked(items: seq<Item>, ps: seq<nat>): (s: seq<str>)
    requires forall i :: 0 <= i < |ps| ==> ps[i] < |items|
    ensures |s| == |ps| && forall i :: 0 <= i < |s| ==> s[i] == Preimage(items[ps[i]])
  {
    seq(|ps|, i requires 0 <= i < |ps| => Preimage(items[ps[i]]))
  }

  lemma {:induction false} GatherLeaves(items: seq<Item>, ps: seq<nat>)
    requires forall i :: 0 <= i < |ps| ==> ps[i] < |items|
    ensures Gather(LeavesOf(items), ps) == Picked(items, ps)
  {
    if ps != [] {
      GatherLeaves(items, ps[1..]);
      assert Picked(items, ps) == [Preimage(items[ps[0]])] + Picked(items, ps[1..]);
    }
  }

  /** What the root of a list is: the padded list of its strings, hashed by halves. */
  lemma {:induction false} RootByHalves(items: seq<Item>)
    ensures items == [] ==> ListRoot(items) == Hash([])
    ensures items != [] ==> ListSpread(items) == Picked(items, Padded(|items|))
    ensures items != [] ==> ListRoot(items) == Halves(Picked(items, Padded(|items|)))
  {
    if items != [] {
      TreeOfPerfect(items);
      DigestByHalves(TreeOf(items), LevelsAbove(|items|));
      SpreadOfBuild(LeavesOf(items));
      GatherLeaves(items, Padded(|items|));
    }
  }

  /** Which siblings of a path stand to the left: those at the levels where the index has its bit set. */
  lemma {:induction false} PathSides(ds: seq<str>, index: nat, i: nat)
    requires index < |ds| && i < |Path(ds, index)|
    ensures Path(ds, index)[i].left <==> Bit(index, i) == 1
    decreases |ds|
  {
    if i > 0 {
      PathSides(Up(ds), index / 2, i - 1);
    }
  }

  /** On which side a step hash goes. */
  lemma {:induction false} StepSides(start: str, h: str)
    ensures Climb(start, [Step(h, true)]) == Hash(h + start) && Climb(start, [Step(h, false)]) == Hash(start + h)
  {
    ClimbLast(start, [], Step(h, true));
    ClimbLast(start, [], Step(h, false));
    assert [Step(h, true)] == [] + [Step(h, true)] && [Step(h, false)] == [] + [Step(h, false)];
  }

  // ----- Soundness of paths

  /** The string hashed at a position of a climb from the leaf string `pre`, which is at position 0. */
  function StringAt(pre: str, steps: seq<Step>, j: nat): str
    requires j <= |steps|
  {
    if j == 0 then pre else Joined(Climb(Hash(pre), steps[..j - 1]), steps[j - 1])
  }

  lemma LastStringHash(pre: str, steps: seq<Step>)
    ensures StringAt(pre, steps, |steps|) in ClimbHashed(pre, steps)
    ensures Hash(StringAt(pre, steps, |steps|)) == Climb(Hash(pre), steps)
  {
  }

  /** The strings hashed at the steps of a climb. */
  ghost function StepHashed(pre: str, steps: seq<Step>): set<str> {
    set j | 0 < j <= |steps| :: StringAt(pre, steps, j)
  }

  /** All strings hashed in a climb. */
  ghost function ClimbHashed(pre: str, steps: seq<Step>): set<str> {
    {pre} + StepHashed(pre, steps)
  }

  lemma StringAtInit(pre: str, steps: seq<Step>, j: nat)
    requires j < |steps|
    ensures StringAt(pre, steps[..|steps| - 1], j) == StringAt(pre, steps, j)
  {
    if j > 0 {
      assert steps[..|steps| - 1][..j - 1] == steps[..j - 1];
    }
  }

  lemma InitHashed(pre: str, steps: seq<Step>)
    requires steps != []
    ensures StepHashed(pre, steps[..|steps| - 1]) <= StepHashed(pre, steps)
  {
    var init := steps[..|steps| - 1];
    forall c | c in StepHashed(pre, init)
      ensures c in StepHashed(pre, steps)
    {
      var j :| 0 < j <= |init| && c == StringAt(pre, init, j);
      StringAtInit(pre, steps, j);
    }
  }

  lemma ClimbIsDigest(pre: str, steps: seq<Step>)
    ensures IsDigest(Climb(Hash(pre), steps))
  {
  }

  ghost predicate Meets(hashed: set<str>, strings: seq<str>) {
    exists c :: c in hashed && c in strings
  }

  /**
    A climb that ends in the digest of a tree started at one of its leaves, or a string it hashed at a step is one.
    Nothing is assumed of the step hashes.
   */
  lemma {:induction false} ClimbPassesLeaf(t: Tree, pre: str, steps: seq<Step>)
    requires !AllHex(pre)
    requires Climb(Hash(pre), steps) == Digest(t)
    requires CollisionFree(Hashed(t), ClimbHashed(pre, steps))
    ensures pre in Spread(t) || Meets(StepHashed(pre, steps), Spread(t))
    decreases |steps|
  {
    var top, c := TopPreimage(t), StringAt(pre, steps, |steps|);
    LastStringHash(pre, steps);
    assert c in ClimbHashed(pre, steps) && c == top;
    if steps != [] && !t.Leaf? {
      var init, s := steps[..|steps| - 1], steps[|steps| - 1];
      var current := Climb(Hash(pre), init);
      ClimbIsDigest(pre, init);
      var (l, r) := Children(t);
      var (a, b) := if s.left then (s.hash, current) else (current, s.hash);
      SplitAtLength(a, b, Digest(l), Digest(r));
      var child := if s.left then r else l;
      InitHashed(pre, steps);
      CollisionFreeWithin(Hashed(t), ClimbHashed(pre, steps), Hashed(child), ClimbHashed(pre, init));
      ClimbPassesLeaf(child, pre, init);
    }
  }

  lemma {:induction false} LastStringNotEmpty(pre: str, steps: seq<Step>)
    requires pre != [] && CollisionFree({[]}, ClimbHashed(pre, steps))
    ensures Climb(Hash(pre), steps) != Hash([])
  {
    var c := StringAt(pre, steps, |steps|);
    LastStringHash(pre, steps);
    if steps != [] {
      ClimbIsDigest(pre, steps[..|steps| - 1]);
    }
    assert c in ClimbHashed(pre, steps) && c != [];
  }

  /** Where the strings hashed at the steps are no leaf strings, a climb to the root of a list starts at a leaf. */
  lemma {:induction false} ClimbStartsAtLeaf(items: seq<Item>, pre: str, steps: seq<Step>)
    requires !AllHex(pre) && !Meets(StepHashed(pre, steps), ListSpread(items))
    requires Climb(Hash(pre), steps) == ListRoot(items)
    requires CollisionFree(ListHashed(items), ClimbHashed(pre, steps))
    ensures pre in ListSpread(items)
  {
    if items == [] {
      LastStringNotEmpty(pre, steps);
    } else {
      ClimbPassesLeaf(TreeOf(items), pre, steps);
    }
  }

  /** A string hashed at a step is the hash of that step beside 64 hex digits. */
  lemma {:induction false} StepString(pre: str, steps: seq<Step>, c: str)
    requires c in StepHashed(pre, steps)
    ensures exists i, current :: 0 <= i < |steps| && IsDigest(current) && c == Joined(current, steps[i])
  {
    var j :| 0 < j <= |steps| && c == StringAt(pre, steps, j);
    ClimbIsDigest(pre, steps[..j - 1]);
    assert c == Joined(Climb(Hash(pre), steps[..j - 1]), steps[j - 1]);
  }
}
