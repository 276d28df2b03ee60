/** Ordered key lists: the insertion sort of the state root, and what makes its outcome unique. */
module Sorting {
  import opened Bytes

  predicate Leq(a: str, b: str) {
    !Less(b, a)
  }

  lemma LeqTransitive(a: str, b: str, c: str)
    requires Leq(a, b) && Leq(b, c)
    ensures Leq(a, c)
  {
    LessTotal(a, b);
    LessTotal(b, c);
    if Less(c, a) {
      if a != b {
        LessTransitive(c, a, b);
      }
    }
  }

  predicate Sorted(s: seq<str>) {
    forall i, j :: 0 <= i < j < |s| ==> Leq(s[i], s[j])
  }

  predicate Ascending(s: seq<str>) {
    forall i, j :: 0 <= i < j < |s| ==> Less(s[i], s[j])
  }

  lemma SameSmallest(a: seq<str>, b: seq<str>)
    requires Sorted(a) && Sorted(b) && multiset(a) == multiset(b) && a != []
    ensures b != [] && a[0] == b[0]
  {
    assert |multiset(a)| == |multiset(b)|;
    assert a[0] in multiset(b) && b[0] in multiset(a);
    var i :| 0 <= i < |b| && b[i] == a[0];
    var j :| 0 <= j < |a| && a[j] == b[0];
    LessIrreflexive(a[0]);
    assert Leq(b[0], a[0]) && Leq(a[0], b[0]);
    LessTotal(a[0], b[0]);
  }

  lemma MultisetTail(a: seq<str>)
    requires a != []
    ensures multiset(a[1..]) == multiset(a) - multiset{a[0]}
  {
    assert a == [a[0]] + a[1..];
  }

  lemma {:induction false} SortedPermutationUnique(a: seq<str>, b: seq<str>)
    requires Sorted(a) && Sorted(b) && multiset(a) == multiset(b)
    ensures a == b
  {
    if a == [] {
      assert |multiset(b)| == 0;
    } else {
      SameSmallest(a, b);
      MultisetTail(a);
      MultisetTail(b);
      SortedPermutationUnique(a[1..], b[1..]);
      assert a == [a[0]] + a[1..] && b == [b[0]] + b[1..];
    }
  }

  // ----- The keys of a map, in order

  ghost function Insert(k: str, s: seq<str>): seq<str> {
    if s == [] || Less(k, s[0]) then [k] + s else [s[0]] + Insert(k, s[1..])
  }

  lemma Below(x: str, t: seq<str>)
    requires Ascending(t) && forall y :: y in t ==> Less(x, y)
    ensures Ascending([x] + t) && multiset([x] + t) == multiset(t) + multiset{x}
  {
  }

  lemma {:induction false} InsertKeepsOrder(k: str, s: seq<str>)
    requires Ascending(s) && k !in s
    ensures Ascending(Insert(k, s)) && multiset(Insert(k, s)) == multiset(s) + multiset{k}
  {
    if s != [] && !Less(k, s[0]) {
      LessTotal(k, s[0]);
      InsertKeepsOrder(k, s[1..]);
      var t := Insert(k, s[1..]);
      MultisetTail(s);
      forall y | y in t
        ensures Less(s[0], y)
      {
        assert y in multiset(t);
        assert y in s[1..] || y == k;
      }
      Below(s[0], t);
    } else {
      forall y | y in s
        ensures Less(k, y)
      {
        if y != s[0] {
          LessTransitive(k, s[0], y);
        }
      }
      Below(k, s);
    }
  }

  ghost predicate Lists(s: seq<str>, keys: set<str>) {
    Ascending(s) && multiset(s) == multiset(keys)
  }

  lemma {:induction false} ListExists(keys: set<str>)
    ensures exists s :: Lists(s, keys)
    decreases |keys|
  {
    if keys == {} {
      assert Lists([], keys);
    } else {
      var k :| k in keys;
      ListExists(keys - {k});
      var rest :| Lists(rest, keys - {k});
      assert k !in multiset(rest);
      InsertKeepsOrder(k, rest);
      assert Lists(Insert(k, rest), keys);
    }
  }

  /** The members of a finite set of strings in ascending order, each once. */
  ghost function InOrder(keys: set<str>): (s: seq<str>)
    ensures Ascending(s) && multiset(s) == multiset(keys)
  {
    ListExists(keys);
    var s :| Lists(s, keys);
    s
  }

  lemma InOrderMembers(keys: set<str>)
    ensures forall k :: k in InOrder(keys) <==> k in keys
    ensures |InOrder(keys)| == |keys|
  {
    var s := InOrder(keys);
    assert forall k :: k in s <==> k in multiset(s);
    assert |multiset(s)| == |s|;
  }

  lemma {:induction false} FirstInOrder(keys: set<str>, k: str)
    requires k in keys && forall l :: l in keys && l != k ==> Less(k, l)
    ensures InOrder(keys) == [k] + InOrder(keys - {k})
  {
    var rest := InOrder(keys - {k});
    InOrderMembers(keys - {k});
    Below(k, rest);
    AscendingIsInOrder([k] + rest);
    assert (set l | l in [k] + rest) == keys;
  }

  lemma SortedKeysAreInOrder(s: seq<str>, keys: set<str>)
    requires Sorted(s) && multiset(s) == multiset(keys)
    ensures s == InOrder(keys)
  {
    var t := InOrder(keys);
    forall i, j | 0 <= i < j < |t|
      ensures Leq(t[i], t[j])
    {
      if Less(t[j], t[i]) {
        LessTransitive(t[i], t[j], t[i]);
        LessIrreflexive(t[i]);
      }
    }
    SortedPermutationUnique(s, t);
  }

  lemma AscendingIsInOrder(s: seq<str>)
    requires Ascending(s)
    ensures s == InOrder(set k | k in s)
  {
    forall i, j | 0 <= i < j < |s|
      ensures Leq(s[i], s[j]) && s[i] != s[j]
    {
      LessIrreflexive(s[i]);
      if Less(s[j], s[i]) {
        LessTransitive(s[i], s[j], s[i]);
      }
    }
    DistinctMultiset(s);
    SortedKeysAreInOrder(s, set k | k in s);
  }

  lemma {:induction false} DistinctMultiset(s: seq<str>)
    requires forall i, j :: 0 <= i < j < |s| ==> s[i] != s[j]
    ensures multiset(s) == multiset(set k | k in s)
  {
    if s != [] {
      var rest := s[1..];
      DistinctMultiset(rest);
      assert s == [s[0]] + rest;
      assert (set k | k in s) == {s[0]} + (set k | k in rest);
      assert s[0] !in (set k | k in rest);
    }
  }

  // ----- The sort itself

  /** The first `i + 1` entries are in order, except that the one at `j` may belong further left. */
  predicate SortedExcept(s: seq<str>, i: nat, j: nat)
    requires j <= i < |s|
  {
    forall p, q :: 0 <= p < q <= i && q != j ==> Leq(s[p], s[q])
  }

  function SwapLeft(s: seq<str>, j: nat): (t: seq<str>)
    requires 0 < j < |s|
    ensures |t| == |s|
  {
    s[j := s[j - 1]][j - 1 := s[j]]
  }

  lemma SwapLeftKeepsOrder(s: seq<str>, i: nat, j: nat)
    requires 0 < j <= i < |s| && SortedExcept(s, i, j) && Less(s[j], s[j - 1])
    ensures SortedExcept(SwapLeft(s, j), i, j - 1)
    ensures multiset(SwapLeft(s, j)) == multiset(s)
  {
    if Less(s[j - 1], s[j]) {
      LessTransitive(s[j], s[j - 1], s[j]);
      LessIrreflexive(s[j]);
    }
  }

  lemma SinkStops(s: seq<str>, i: nat, j: nat)
    requires j <= i < |s| && SortedExcept(s, i, j) && (j == 0 || Leq(s[j - 1], s[j]))
    ensures Sorted(s[..i + 1])
  {
    forall p | 0 <= p < j
      ensures Leq(s[p], s[j])
    {
      if p < j - 1 {
        LeqTransitive(s[p], s[j - 1], s[j]);
      }
    }
  }

  /** Moves the entry at `i` left until it is in order: the inner loop. */
  method SinkLeft(keys: array<str>, i: nat)
    requires i < keys.Length && Sorted(keys[..i])
    modifies keys
    ensures Sorted(keys[..i + 1])
    ensures multiset(keys[..]) == old(multiset(keys[..]))
  {
    var j := i;
    while j > 0 && Less(keys[j], keys[j - 1])
      invariant 0 <= j <= i
      invariant SortedExcept(keys[..], i, j)
      invariant multiset(keys[..]) == old(multiset(keys[..]))
    {
      SwapLeftKeepsOrder(keys[..], i, j);
      ghost var swapped := SwapLeft(keys[..], j);
      keys[j], keys[j - 1] := keys[j - 1], keys[j];
      assert keys[..] == swapped;
      j := j - 1;
    }
    SinkStops(keys[..], i, j);
    assert keys[..][..i + 1] == keys[..i + 1];
  }

  method InsertionSort(keys: array<str>)
    modifies keys
    ensures Sorted(keys[..])
    ensures multiset(keys[..]) == old(multiset(keys[..]))
  {
    var i := 1;
    while i < keys.Length
      invariant 1 <= i
      invariant i <= keys.Length || keys.Length == 0
      invariant keys.Length > 0 ==> Sorted(keys[..i])
      invariant multiset(keys[..]) == old(multiset(keys[..]))
    {
      SinkLeft(keys, i);
      i := i + 1;
    }
    if keys.Length > 0 {
      assert keys[..] == keys[..i];
    }
  }

  /** Collects the keys of a map in whatever order iteration yields, then sorts them. */
  method SortedKeys(m: map<str, str>) returns (keys: seq<str>)
    ensures keys == InOrder(m.Keys)
  {
    keys := [];
    var rest := m.Keys;
    while rest != {}
      invariant multiset(keys) + multiset(rest) == multiset(m.Keys)
      decreases |rest|
    {
      var k :| k in rest;
      keys := keys + [k];
      rest := rest - {k};
    }
    var a := new str[|keys|](i requires 0 <= i < |keys| => keys[i]);
    assert a[..] == keys;
    InsertionSort(a);
    SortedKeysAreInOrder(a[..], m.Keys);
    keys := a[..];
  }
}
