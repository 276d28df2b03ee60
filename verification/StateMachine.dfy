/** The key-value state and its root: internal/state_machine/state.go. */
module StateMachine {
  import opened Bytes
  import opened Options
  import opened Hashing
  import opened ChainTypes
  import Sets
  import Sorting

  type Data = map<str, str>

  // ----- Serialization under a digest

  /** Entries written one after the other, `sep` after each key and `end` after each value. */
  function Serialize(d: Data, keys: seq<str>, sep: byte, end: byte): str
    requires forall k :: k in keys ==> k in d
  {
    if keys == [] then []
    else keys[0] + [sep] + d[keys[0]] + [end] + Serialize(d, keys[1..], sep, end)
  }

  ghost function Canonical(d: Data, sep: byte, end: byte): str {
    Sorting.InOrderMembers(d.Keys);
    Serialize(d, Sorting.InOrder(d.Keys), sep, end)
  }

  ghost function RootBytes(d: Data): str {
    Canonical(d, EQUALS, SEMICOLON)
  }

  ghost function RootOf(d: Data): (r: str)
    ensures IsDigest(r)
  {
    Hash(RootBytes(d))
  }

  /** `sep` marks the end of every key and `end` the end of every value. */
  predicate Readable(d: Data, sep: byte, end: byte) {
    forall k :: k in d ==> sep !in k && end !in d[k]
  }

  /** Keys are taken from `K`, and `end` marks the end of every value. */
  ghost predicate In(d: Data, K: iset<str>, end: byte) {
    forall k :: k in d ==> k in K && end !in d[k]
  }

  lemma {:induction false} SerializeInjective(K: iset<str>, c: Data, ks: seq<str>, d: Data, ls: seq<str>,
                                              sep: byte, end: byte)
    requires forall k :: k in ks ==> k in c
    requires forall k :: k in ls ==> k in d
    requires PrefixFree(K, sep) && In(c, K, end) && In(d, K, end)
    requires Serialize(c, ks, sep, end) == Serialize(d, ls, sep, end)
    ensures ks == ls
    ensures forall k :: k in ks ==> c[k] == d[k]
  {
    if ks != [] && ls != [] {
      var (k, l) := (ks[0], ls[0]);
      var x, y := Serialize(c, ks[1..], sep, end), Serialize(d, ls[1..], sep, end);
      assert k + [sep] + c[k] + [end] + x == k + [sep] + (c[k] + [end] + x);
      assert l + [sep] + d[l] + [end] + y == l + [sep] + (d[l] + [end] + y);
      SplitInSet(K, k, c[k] + [end] + x, l, d[l] + [end] + y, sep);
      SplitAtSeparator(c[k], x, d[l], y, end);
      SerializeInjective(K, c, ks[1..], d, ls[1..], sep, end);
      assert ks == [k] + ks[1..] && ls == [l] + ls[1..];
    }
  }

  lemma CanonicalInjectiveIn(K: iset<str>, c: Data, d: Data, sep: byte, end: byte)
    requires PrefixFree(K, sep) && In(c, K, end) && In(d, K, end)
    requires Canonical(c, sep, end) == Canonical(d, sep, end)
    ensures c == d
  {
    var ks, ls := Sorting.InOrder(c.Keys), Sorting.InOrder(d.Keys);
    Sorting.InOrderMembers(c.Keys);
    Sorting.InOrderMembers(d.Keys);
    SameSerialSameData(K, c, ks, d, ls, sep, end);
  }

  lemma SameSerialSameData(K: iset<str>, c: Data, ks: seq<str>, d: Data, ls: seq<str>, sep: byte, end: byte)
    requires forall k :: k in ks <==> k in c
    requires forall k :: k in ls <==> k in d
    requires PrefixFree(K, sep) && In(c, K, end) && In(d, K, end)
    requires Serialize(c, ks, sep, end) == Serialize(d, ls, sep, end)
    ensures c == d
  {
    SerializeInjective(K, c, ks, d, ls, sep, end);
  }

  lemma CanonicalInjective(c: Data, d: Data, sep: byte, end: byte)
    requires Readable(c, sep, end) && Readable(d, sep, end)
    requires Canonical(c, sep, end) == Canonical(d, sep, end)
    ensures c == d
  {
    FreeOfIsPrefixFree(sep);
    CanonicalInjectiveIn(FreeOf(sep), c, d, sep, end);
  }

  lemma CanonicalOf(d: Data, ks: seq<str>, sep: byte, end: byte)
    requires Sorting.Ascending(ks) && (forall k :: k in ks <==> k in d)
    ensures Canonical(d, sep, end) == Serialize(d, ks, sep, end)
  {
    Sorting.AscendingIsInOrder(ks);
    assert (set k | k in ks) == d.Keys;
  }

  lemma CanonicalOfOne(d: Data, k: str, sep: byte, end: byte)
    requires d.Keys == {k}
    ensures Canonical(d, sep, end) == k + [sep] + d[k] + [end]
  {
    CanonicalOf(d, [k], sep, end);
    assert [k][1..] == [];
  }

  lemma CanonicalOfTwo(d: Data, k: str, l: str, sep: byte, end: byte)
    requires Less(k, l) && d.Keys == {k, l}
    ensures Canonical(d, sep, end) == k + [sep] + d[k] + [end] + (l + [sep] + d[l] + [end])
  {
    CanonicalOf(d, [k, l], sep, end);
    assert [k, l][1..] == [l] && [l][1..] == [];
    assert l in d;
    assert Serialize(d, [l], sep, end) == l + [sep] + d[l] + [end];
  }

  /** Why values must be readable: a value holding the end mark can stand for a further entry. */
  lemma UnreadableValuesCollide(c: Data, d: Data, k: str, l: str)
    requires Less(k, l) && c.Keys == {k, l} && d.Keys == {k}
    requires d[k] == c[k] + [SEMICOLON] + l + [EQUALS] + c[l]
    ensures c != d && RootBytes(c) == RootBytes(d) && RootOf(c) == RootOf(d)
  {
    LessIrreflexive(k);
    assert l in c && l !in d;
    CanonicalOfTwo(c, k, l, EQUALS, SEMICOLON);
    CanonicalOfOne(d, k, EQUALS, SEMICOLON);
    var (w, x) := (k + [EQUALS], l + [EQUALS] + c[l]);
    Regroup(w, c[k], [SEMICOLON]);
    Regroup(w, c[k] + [SEMICOLON], x);
    Regroup(w + (c[k] + [SEMICOLON]), x, [SEMICOLON]);
    assert c[k] + [SEMICOLON] + x == d[k];
  }

  /** A separator in a key can as well be the one after a shorter key. */
  lemma SeparatorsCollide(k: str, r: str, v: str, sep: byte, end: byte)
    ensures map[k + [sep] + r := v] != map[k := r + [sep] + v]
    ensures Canonical(map[k + [sep] + r := v], sep, end) == Canonical(map[k := r + [sep] + v], sep, end)
  {
    var c: Data, d: Data := map[k + [sep] + r := v], map[k := r + [sep] + v];
    CanonicalOfOne(c, k + [sep] + r, sep, end);
    CanonicalOfOne(d, k, sep, end);
    Regroup(k + [sep], r, [sep] + v);
    Regroup(k + [sep] + r, [sep], v);
    Regroup(r, [sep], v);
    assert |k + [sep] + r| > |k|;
    assert k !in c;
  }

  /** Why keys must be readable: the two ways to cut `k=r=v` are different states with one root. */
  lemma {:induction false} EqualsInKeysCollide(k: str, r: str, v: str)
    ensures map[k + [EQUALS] + r := v] != map[k := r + [EQUALS] + v]
    ensures RootBytes(map[k + [EQUALS] + r := v]) == RootBytes(map[k := r + [EQUALS] + v])
    ensures RootOf(map[k + [EQUALS] + r := v]) == RootOf(map[k := r + [EQUALS] + v])
  {
    SeparatorsCollide(k, r, v, EQUALS, SEMICOLON);
  }

  /** The written form of a map in terms of its entries: that of the first key in order, then that of the others. */
  lemma {:induction false} CanonicalMeans(d: Data, k: str, sep: byte, end: byte)
    requires k in d && forall l :: l in d && l != k ==> Less(k, l)
    ensures Canonical(d, sep, end) == k + [sep] + d[k] + [end] + Canonical(d - {k}, sep, end)
    ensures Canonical(map[], sep, end) == []
  {
    var rest := d - {k};
    var ks := Sorting.InOrder(rest.Keys);
    Sorting.FirstInOrder(d.Keys, k);
    assert rest.Keys == d.Keys - {k};
    Sorting.InOrderMembers(rest.Keys);
    assert ([k] + ks)[1..] == ks;
    SerializeSame(d, rest, ks, sep, end);
    CanonicalOf(map[], [], sep, end);
  }

  lemma {:induction false} SerializeSame(c: Data, d: Data, keys: seq<str>, sep: byte, end: byte)
    requires forall k :: k in keys ==> k in c && k in d && c[k] == d[k]
    ensures Serialize(c, keys, sep, end) == Serialize(d, keys, sep, end)
  {
    if keys != [] {
      SerializeSame(c, d, keys[1..], sep, end);
    }
  }

  // ----- Which maps can be told from their written form

  /** No other map is written as `d` is. */
  ghost predicate WrittenOnce(d: Data, sep: byte, end: byte) {
    forall c :: Canonical(c, sep, end) == Canonical(d, sep, end) ==> c == d
  }

  /** One entry, which holds no separator. */
  ghost predicate SoleEntry(d: Data, sep: byte) {
    exists k :: d.Keys == {k} && sep !in k && sep !in d[k]
  }

  lemma {:induction false} SerializeEnds(d: Data, keys: seq<str>, sep: byte, end: byte)
    requires keys != [] && forall k :: k in keys ==> k in d
    ensures Serialize(d, keys, sep, end) != []
    ensures var s := Serialize(d, keys, sep, end); s[|s| - 1] == end
  {
    if |keys| > 1 {
      SerializeEnds(d, keys[1..], sep, end);
    }
  }

  /** Everything after the first key reads as one value. */
  lemma {:induction false} WrittenAsOne(d: Data, sep: byte, end: byte) returns (k: str, w: str)
    requires d != map[]
    ensures Canonical(d, sep, end) == Canonical(map[k := w], sep, end)
  {
    var ks := Sorting.InOrder(d.Keys);
    Sorting.InOrderMembers(d.Keys);
    assert d.Keys != {};
    k := ks[0];
    var rest := d[k] + [end] + Serialize(d, ks[1..], sep, end);
    if |ks| > 1 {
      SerializeEnds(d, ks[1..], sep, end);
    }
    w := rest[..|rest| - 1];
    assert rest == w + [end];
    var head := k + [sep];
    Regroup(head, d[k], [end]);
    Regroup(head, d[k] + [end], Serialize(d, ks[1..], sep, end));
    Regroup(head, w, [end]);
    CanonicalOfOne(map[k := w], k, sep, end);
  }

  /** Two entries put two separators before the last end mark. */
  lemma TwoSeparators(d: Data, keys: seq<str>, sep: byte, end: byte) returns (i: nat, j: nat)
    requires |keys| > 1 && forall k :: k in keys ==> k in d
    ensures var s := Serialize(d, keys, sep, end); i < j < |s| - 1 && s[i] == sep && s[j] == sep
  {
    var tail := keys[1..];
    var k, l, x := keys[0], tail[0], Serialize(d, tail[1..], sep, end);
    var y := Serialize(d, tail, sep, end);
    i := |k|;
    j := |k + [sep] + d[k] + [end]| + |l|;
    assert y == l + [sep] + d[l] + [end] + x && y[|l|] == sep;
    assert Serialize(d, keys, sep, end) == k + [sep] + d[k] + [end] + y;
  }

  lemma OneSeparator(k: str, v: str, sep: byte, end: byte, i: nat)
    requires sep !in k && sep !in v && i < |k + [sep] + v| && (k + [sep] + v + [end])[i] == sep
    ensures i == |k|
  {
  }

  lemma {:induction false} SoleEntryWrittenOnce(c: Data, k: str, v: str, sep: byte, end: byte)
    requires sep !in k && sep !in v
    requires Canonical(c, sep, end) == k + [sep] + v + [end]
    ensures c == map[k := v]
  {
    var ks := Sorting.InOrder(c.Keys);
    Sorting.InOrderMembers(c.Keys);
    if |ks| > 1 {
      var i, j := TwoSeparators(c, ks, sep, end);
      OneSeparator(k, v, sep, end, i);
      OneSeparator(k, v, sep, end, j);
    } else {
      assert |ks| == 1;
      var l := ks[0];
      assert c.Keys == {l};
      CanonicalOfOne(c, l, sep, end);
      SplitBeforeLast(l + [sep] + c[l], k + [sep] + v, end);
      SplitAtOnly(l, c[l], k, v, sep);
    }
  }

  lemma SplitBeforeLast(a: str, b: str, end: byte)
    requires a + [end] == b + [end]
    ensures a == b
  {
    assert |a| == |b|;
    SplitAtLength(a, [end], b, [end]);
  }

  lemma {:induction false} WrittenTwice(d: Data, sep: byte, end: byte) returns (c: Data)
    requires d != map[] && !SoleEntry(d, sep)
    ensures c != d && Canonical(c, sep, end) == Canonical(d, sep, end)
  {
    if |d| > 1 {
      var k, w := WrittenAsOne(d, sep, end);
      c := map[k := w];
      assert |c| == 1;
    } else {
      assert |d.Keys| == 1 && d.Keys != {};
      var k :| k in d.Keys;
      Sets.SubsetCardinality({k}, d.Keys);
      assert d == map[k := d[k]];
      if sep in k {
        var x, y := CutAtFirst(k, sep);
        SeparatorsCollide(x, y, d[k], sep, end);
        c := map[x := y + [sep] + d[k]];
      } else {
        var x, y := CutAtFirst(d[k], sep);
        SeparatorsCollide(k, x, y, sep, end);
        c := map[k + [sep] + x := y];
      }
    }
  }

  /** Exactly which maps can be told from their written form among all maps: one entry and no stray separator. */
  lemma {:induction false} WrittenOnceIff(d: Data, sep: byte, end: byte)
    ensures WrittenOnce(d, sep, end) <==> d == map[] || SoleEntry(d, sep)
  {
    if d == map[] {
      forall c | Canonical(c, sep, end) == Canonical(d, sep, end)
        ensures c == d
      {
        EmptyForm(c, sep, end);
      }
    } else if SoleEntry(d, sep) {
      var k :| d.Keys == {k} && sep !in k && sep !in d[k];
      CanonicalOfOne(d, k, sep, end);
      forall c | Canonical(c, sep, end) == Canonical(d, sep, end)
        ensures c == d
      {
        SoleEntryWrittenOnce(c, k, d[k], sep, end);
      }
    } else {
      var _ := WrittenTwice(d, sep, end);
    }
  }

  lemma EmptyForm(c: Data, sep: byte, end: byte)
    ensures Canonical(c, sep, end) == Canonical(map[], sep, end) ==> c == map[]
  {
    Sorting.InOrderMembers(c.Keys);
    CanonicalOf(map[], [], sep, end);
    if c != map[] {
      assert c.Keys != {};
      SerializeEnds(c, Sorting.InOrder(c.Keys), sep, end);
    }
  }

  lemma SerializeNext(d: Data, keys: seq<str>, i: nat, sep: byte, end: byte)
    requires i < |keys| && forall k :: k in keys ==> k in d
    ensures Serialize(d, keys[i..], sep, end) ==
            keys[i] + [sep] + d[keys[i]] + [end] + Serialize(d, keys[i + 1..], sep, end)
  {
    assert keys[i..][1..] == keys[i + 1..];
  }

  method WriteEntries(d: Data, keys: seq<str>, sep: byte, end: byte) returns (written: str)
    requires forall k :: k in keys ==> k in d
    ensures written == Serialize(d, keys, sep, end)
  {
    written := [];
    for i := 0 to |keys|
      invariant written + Serialize(d, keys[i..], sep, end) == Serialize(d, keys, sep, end)
    {
      var k := keys[i];
      SerializeNext(d, keys, i, sep, end);
      written := written + (k + [sep] + d[k] + [end]);
    }
  }

  /** Writes the entries of a map in ascending key order, whatever order iteration yields them in. */
  method WriteCanonical(d: Data, sep: byte, end: byte) returns (written: str)
    ensures written == Canonical(d, sep, end)
  {
    var keys := Sorting.SortedKeys(d);
    Sorting.InOrderMembers(d.Keys);
    written := WriteEntries(d, keys, sep, end);
  }

  // ----- State roots

  /** The marks under a state root, as characters. */
  lemma {:induction false} RootMarks(d: Data)
    ensures RootBytes(d) == Canonical(d, '=' as int, ';' as int) && RootOf(d) == Hash(RootBytes(d))
  {
  }

  /** The root binds the data it is taken over. */
  lemma RootBindsData(c: Data, d: Data)
    requires Readable(c, EQUALS, SEMICOLON) && Readable(d, EQUALS, SEMICOLON)
    requires CollisionFree({RootBytes(c)}, {RootBytes(d)})
    ensures RootOf(c) == RootOf(d) <==> c == d
  {
    if RootOf(c) == RootOf(d) {
      CanonicalInjective(c, d, EQUALS, SEMICOLON);
    }
  }

  /** One root, and not because the two written forms collide. */
  ghost predicate ShareRoot(c: Data, d: Data) {
    RootOf(c) == RootOf(d) && CollisionFree({RootBytes(c)}, {RootBytes(d)})
  }

  ghost predicate DeterminedByRoot(d: Data) {
    forall c :: ShareRoot(c, d) ==> c == d
  }

  /** Exactly which states their root tells from all others: the empty one, and those of one entry without `=`. */
  lemma {:induction false} DeterminedByRootIff(d: Data)
    ensures DeterminedByRoot(d) <==> d == map[] || SoleEntry(d, EQUALS)
  {
    WrittenOnceIff(d, EQUALS, SEMICOLON);
    if DeterminedByRoot(d) {
      forall c | Canonical(c, EQUALS, SEMICOLON) == Canonical(d, EQUALS, SEMICOLON)
        ensures c == d
      {
        assert ShareRoot(c, d);
      }
    }
    if WrittenOnce(d, EQUALS, SEMICOLON) {
      forall c | ShareRoot(c, d)
        ensures c == d
      {
        assert RootBytes(c) == RootBytes(d);
      }
    }
  }

  /** No two states with keys in `K` and values free of `;` share a root unless their written forms collide. */
  ghost predicate RootsBindStates(K: iset<str>) {
    forall c, d :: In(c, K, SEMICOLON) && In(d, K, SEMICOLON) && ShareRoot(c, d) ==> c == d
  }

  /** The exact condition on keys, for states of every size: no key is another one followed by `=`. */
  lemma {:induction false} RootsBindStatesIff(K: iset<str>)
    requires forall k :: k in K ==> SEMICOLON !in k
    ensures RootsBindStates(K) <==> PrefixFree(K, EQUALS)
  {
    if PrefixFree(K, EQUALS) {
      forall c, d | In(c, K, SEMICOLON) && In(d, K, SEMICOLON) && ShareRoot(c, d)
        ensures c == d
      {
        CanonicalInjectiveIn(K, c, d, EQUALS, SEMICOLON);
      }
    } else {
      var k, r :| k in K && k + [EQUALS] + r in K;
      EqualsInKeysCollide(k, r, []);
      var l := k + [EQUALS] + r;
      assert forall i :: 0 <= i < |r| ==> l[|k| + 1 + i] == r[i];
      assert In(map[l := []], K, SEMICOLON) && In(map[k := r + [EQUALS] + []], K, SEMICOLON);
      assert ShareRoot(map[l := []], map[k := r + [EQUALS] + []]);
    }
  }

  // ----- Transactions

  predicate Applies(t: Tx) {
    t.gas != 0 && t.key != []
  }

  function ApplyTo(d: Data, t: Tx): Data {
    if Applies(t) then d[t.key := t.value] else d
  }

  /** Transactions applied left to right, skipping those that fail. */
  function ApplyAll(d: Data, txs: seq<Tx>): Data {
    if txs == [] then d else ApplyTo(ApplyAll(d, txs[..|txs| - 1]), txs[|txs| - 1])
  }

  /** What the fold means for one key: the value of the last transaction that writes it, else the old value. */
  lemma {:induction false} ApplyAllKeepsLastWrite(d: Data, txs: seq<Tx>, i: nat)
    requires i < |txs| && Applies(txs[i])
    requires forall j :: i < j < |txs| ==> Applies(txs[j]) ==> txs[j].key != txs[i].key
    ensures txs[i].key in ApplyAll(d, txs) && ApplyAll(d, txs)[txs[i].key] == txs[i].value
  {
    if i < |txs| - 1 {
      ApplyAllKeepsLastWrite(d, txs[..|txs| - 1], i);
    }
  }

  lemma {:induction false} ApplyAllKeepsUnwritten(d: Data, txs: seq<Tx>, k: str)
    requires forall j :: 0 <= j < |txs| ==> Applies(txs[j]) ==> txs[j].key != k
    ensures k in ApplyAll(d, txs) <==> k in d
    ensures k in d ==> ApplyAll(d, txs)[k] == d[k]
  {
    if txs != [] {
      ApplyAllKeepsUnwritten(d, txs[..|txs| - 1], k);
    }
  }

  datatype ApplyError = GasRequired | KeyRequired

  class State {
    var data: Data
    var versions: map<u64, Data>

    constructor ()
      ensures data == map[] && versions == map[]
    {
      data, versions := map[], map[];
    }

    method Apply(t: Tx) returns (err: Option<ApplyError>)
      modifies this`data
      ensures err == if t.gas == 0 then Some(GasRequired) else if t.key == [] then Some(KeyRequired) else None
      ensures data == ApplyTo(old(data), t)
      ensures data == if t.gas != 0 && t.key != [] then old(data)[t.key := t.value] else old(data)
    {
      if t.gas == 0 {
        return Some(GasRequired);
      }
      if t.key == [] {
        return Some(KeyRequired);
      }
      data := data[t.key := t.value];
      return None;
    }

    method Root() returns (r: str)
      ensures r == RootOf(data)
    {
      var written := WriteCanonical(data, EQUALS, SEMICOLON);
      r := Hash(written);
    }

    method Snapshot(h: u64) returns (c: Data)
      modifies this`versions
      ensures c == data && versions == old(versions)[h := data]
    {
      c := data;
      versions := versions[h := c];
    }

    /** Fails, changing nothing, when no snapshot was taken at `h`. */
    method Rollback(h: u64) returns (ok: bool)
      modifies this`data
      ensures ok <==> h in versions
      ensures data == if ok then versions[h] else old(data)
    {
      if h !in versions {
        return false;
      }
      data := versions[h];
      return true;
    }
  }
}
