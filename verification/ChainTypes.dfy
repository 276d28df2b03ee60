/** The records of the chain, and the byte strings their digests are taken over. */
module ChainTypes {
  import opened Bytes
  import opened Hashing
  import Decimal

  datatype Validator = Validator(address: str, power: u64, publicKey: str)

  datatype Network = Network(id: str, name: str, chainId: str, version: u32, validators: seq<Validator>)

  datatype Tx = Tx(
    id: str, from: str, to: str,
    nonce: u64, fee: u64, gas: u64,
    key: str, value: str,
    expiresAt: i64, size: u32, signature: str)

  datatype Header = Header(
    height: u64, view: u64,
    prevHash: str, stateRoot: str, txRoot: str, proposer: str,
    timestamp: i64, version: u32)

  datatype Vote = Vote(validator: str, height: u64, view: u64, kind: str, signature: str)

  datatype Block = Block(header: Header, transactions: seq<Tx>, commit: seq<Vote>, hash: str)

  datatype Snapshot = Snapshot(id: str, height: u64, root: str, data: map<str, str>, verified: bool)

  /** Fields separated by `|`, the shape of every hashed record. */
  function Join(fields: seq<str>): str
    requires fields != []
  {
    if |fields| == 1 then fields[0] else fields[0] + [BAR] + Join(fields[1..])
  }

  /** Only the last field may contain the separator. */
  predicate Separable(fields: seq<str>) {
    forall i :: 0 <= i < |fields| - 1 ==> BAR !in fields[i]
  }

  lemma {:induction false} JoinInjective(a: seq<str>, b: seq<str>)
    requires |a| == |b| > 0
    requires Separable(a) && Separable(b)
    requires Join(a) == Join(b)
    ensures a == b
  {
    if |a| > 1 {
      SplitAtSeparator(a[0], Join(a[1..]), b[0], Join(b[1..]), BAR);
      assert forall i :: 0 <= i < |a[1..]| - 1 ==> a[1..][i] == a[i + 1] && b[1..][i] == b[i + 1];
      JoinInjective(a[1..], b[1..]);
      assert a == [a[0]] + a[1..] && b == [b[0]] + b[1..];
    } else {
      assert a == [a[0]] && b == [b[0]];
    }
  }

  lemma JoinHasBar(fields: seq<str>)
    requires |fields| > 1
    ensures BAR in Join(fields)
  {
    assert Join(fields)[|fields[0]|] == BAR;
  }

  predicate FieldsBarFree(fields: seq<str>) {
    forall i :: 0 <= i < |fields| ==> BAR !in fields[i]
  }

  /** A record of `n` fields holds `n - 1` separators, and more exactly when a field holds one. */
  lemma {:induction false} JoinBars(fields: seq<str>)
    requires fields != []
    ensures multiset(Join(fields))[BAR] >= |fields| - 1
    ensures multiset(Join(fields))[BAR] == |fields| - 1 <==> FieldsBarFree(fields)
  {
    assert multiset(fields[0])[BAR] == 0 <==> BAR !in fields[0];
    if |fields| > 1 {
      JoinBars(fields[1..]);
      assert FieldsBarFree(fields) <==> BAR !in fields[0] && FieldsBarFree(fields[1..]) by {
        assert fields == [fields[0]] + fields[1..];
      }
    }
  }

  /** Fields without separators are read back against any other record of as many fields. */
  lemma JoinReadBack(a: seq<str>, b: seq<str>)
    requires |a| == |b| > 0 && FieldsBarFree(a)
    requires Join(a) == Join(b)
    ensures a == b
  {
    JoinBars(a);
    JoinBars(b);
    JoinInjective(a, b);
  }

  lemma {:induction false} JoinLast(fields: seq<str>, last: str)
    requires fields != []
    ensures Join(fields + [last]) == Join(fields) + [BAR] + last
  {
    if |fields| > 1 {
      JoinLast(fields[1..], last);
      assert (fields + [last])[1..] == fields[1..] + [last];
      Regroup(fields[0] + [BAR], Join(fields[1..]), [BAR] + last);
      Regroup(fields[0] + [BAR] + Join(fields[1..]), [BAR], last);
      Regroup(Join(fields[1..]), [BAR], last);
    } else {
      assert (fields + [last])[1..] == [last];
    }
  }

  /** A separator inside a field can as well end it: the rest then belongs to the next field. */
  lemma {:induction false} MoveBar(fields: seq<str>, i: nat, x: str, y: str, z: str)
    requires i + 1 < |fields|
    ensures Join(fields[i := x + [BAR] + y][i + 1 := z]) == Join(fields[i := x][i + 1 := y + [BAR] + z])
  {
    var f, g := fields[i := x + [BAR] + y][i + 1 := z], fields[i := x][i + 1 := y + [BAR] + z];
    var rest := fields[1..];
    if i > 0 {
      MoveBar(rest, i - 1, x, y, z);
      assert f[1..] == rest[i - 1 := x + [BAR] + y][i := z];
      assert g[1..] == rest[i - 1 := x][i := y + [BAR] + z];
    } else {
      assert f[1..] == rest[0 := z] && g[1..] == rest[0 := y + [BAR] + z];
      FirstField(rest, y, z);
      Regroup(x + [BAR], y + [BAR], Join(f[1..]));
      Regroup(x + [BAR], y, [BAR]);
    }
  }

  lemma FirstField(fields: seq<str>, y: str, z: str)
    requires fields != []
    ensures Join(fields[0 := y + [BAR] + z]) == y + [BAR] + Join(fields[0 := z])
  {
    if |fields| > 1 {
      assert fields[0 := y + [BAR] + z][1..] == fields[0 := z][1..];
      Regroup(y + [BAR], z, [BAR]);
      Regroup(y + [BAR], z + [BAR], Join(fields[1..]));
    }
  }

  /** What a field holds beyond a separator can be given to a neighbour without changing the record. */
  lemma {:induction false} ShiftBar(fields: seq<str>, i: nat, j: nat) returns (g: seq<str>)
    requires i < |fields| && j < |fields| && (j == i + 1 || i == j + 1) && BAR in fields[i]
    ensures |g| == |fields| && g == fields[i := g[i]][j := g[j]] && |g[i]| < |fields[i]|
    ensures Join(g) == Join(fields)
  {
    var s := fields[i];
    var x, y := CutAtFirst(s, BAR);
    if j == i + 1 {
      g := fields[i := x][j := y + [BAR] + fields[j]];
      MoveBar(fields, i, x, y, fields[j]);
      assert fields == fields[i := s][j := fields[j]];
    } else {
      g := fields[j := fields[j] + [BAR] + x][i := y];
      MoveBar(fields, j, fields[j], x, y);
      assert fields == fields[j := fields[j]][i := s];
    }
  }

  // ----- Reading a record

  /** The parts of a string between its separators. */
  function Cut(s: str): (parts: seq<str>)
    ensures parts != []
  {
    if s == [] then [[]]
    else if s[0] == BAR then [[]] + Cut(s[1..])
    else [[s[0]] + Cut(s[1..])[0]] + Cut(s[1..])[1..]
  }

  lemma {:induction false} CutWhole(s: str)
    requires BAR !in s
    ensures Cut(s) == [s]
  {
    if s != [] {
      CutWhole(s[1..]);
      assert s == [s[0]] + s[1..];
    }
  }

  lemma {:induction false} CutFirst(s: str, rest: str)
    requires BAR !in s
    ensures Cut(s + [BAR] + rest) == [s] + Cut(rest)
  {
    var all := s + [BAR] + rest;
    if s == [] {
      assert all[1..] == rest;
    } else {
      CutFirst(s[1..], rest);
      assert all[1..] == s[1..] + [BAR] + rest;
      assert s == [s[0]] + s[1..];
    }
  }

  /** Cutting undoes joining. */
  lemma {:induction false} CutJoin(fields: seq<str>)
    requires fields != [] && FieldsBarFree(fields)
    ensures Cut(Join(fields)) == fields
  {
    if |fields| == 1 {
      CutWhole(fields[0]);
      assert fields == [fields[0]];
    } else {
      CutFirst(fields[0], Join(fields[1..]));
      CutJoin(fields[1..]);
      assert fields == [fields[0]] + fields[1..];
    }
  }

  function HeaderFields(h: Header): seq<str> {
    [Decimal.Format(h.height), Decimal.Format(h.view), h.prevHash, h.stateRoot, h.txRoot, h.proposer,
     Decimal.Format(h.timestamp), Decimal.Format(h.version)]
  }

  function HeaderBytes(h: Header): str {
    Join(HeaderFields(h))
  }

  function HeaderHash(h: Header): str {
    Hash(HeaderBytes(h))
  }

  predicate HeaderBarFree(h: Header) {
    BAR !in h.prevHash && BAR !in h.stateRoot && BAR !in h.txRoot && BAR !in h.proposer
  }

  lemma HeaderBytesInjective(a: Header, b: Header)
    requires HeaderBarFree(a) && HeaderBarFree(b)
    requires HeaderBytes(a) == HeaderBytes(b)
    ensures a == b
  {
    var f, g := HeaderFields(a), HeaderFields(b);
    JoinInjective(f, g);
    assert f[0] == g[0] && f[1] == g[1] && f[2] == g[2] && f[3] == g[3];
    assert f[4] == g[4] && f[5] == g[5] && f[6] == g[6] && f[7] == g[7];
    Decimal.FormatInjective(a.height, b.height);
    Decimal.FormatInjective(a.view, b.view);
    Decimal.FormatInjective(a.timestamp, b.timestamp);
    Decimal.FormatInjective(a.version, b.version);
  }

  /** The hashed string tells a header from every other. */
  ghost predicate HeaderReadable(h: Header) {
    forall g :: HeaderBytes(g) == HeaderBytes(h) ==> g == h
  }

  lemma {:induction false} BarInHeader(h: Header) returns (x: Header)
    requires !HeaderBarFree(h)
    ensures x != h && HeaderBytes(x) == HeaderBytes(h)
  {
    var (i, j) :=
      if BAR in h.prevHash then (2, 3) else if BAR in h.stateRoot then (3, 4) else if BAR in h.txRoot then (4, 5)
      else (5, 4);
    var g := ShiftBar(HeaderFields(h), i, j);
    x := h.(prevHash := g[2], stateRoot := g[3], txRoot := g[4], proposer := g[5]);
    assert HeaderFields(x) == g && HeaderFields(x)[i] != HeaderFields(h)[i];
  }

  /** Exactly when a header string can be read back: when no string field holds the separator. */
  lemma {:induction false} HeaderReadableIff(h: Header)
    ensures HeaderReadable(h) <==> HeaderBarFree(h)
  {
    if HeaderBarFree(h) {
      forall g | HeaderBytes(g) == HeaderBytes(h)
        ensures g == h
      {
        JoinReadBack(HeaderFields(h), HeaderFields(g));
        assert HeaderFields(g)[2] == g.prevHash && HeaderFields(g)[3] == g.stateRoot;
        assert HeaderFields(g)[4] == g.txRoot && HeaderFields(g)[5] == g.proposer;
        HeaderBytesInjective(g, h);
      }
    } else {
      var _ := BarInHeader(h);
    }
  }

  /** The hashed header, cut at its separators: height, view, four strings, time and version, numbers in decimal. */
  lemma {:induction false} HeaderRead(h: Header)
    requires BAR !in h.prevHash && BAR !in h.stateRoot && BAR !in h.txRoot && BAR !in h.proposer
    ensures var f := Cut(HeaderBytes(h));
      && |f| == 8
      && Decimal.Read(f[0]) == h.height && Decimal.Read(f[1]) == h.view
      && f[2] == h.prevHash && f[3] == h.stateRoot && f[4] == h.txRoot && f[5] == h.proposer
      && Decimal.Read(f[6]) == h.timestamp && Decimal.Read(f[7]) == h.version
  {
    CutJoin(HeaderFields(h));
    Decimal.FormatMeans(h.height);
    Decimal.FormatMeans(h.view);
    Decimal.FormatMeans(h.timestamp);
    Decimal.FormatMeans(h.version);
  }

  function TxFields(t: Tx): seq<str> {
    [t.id, t.from, t.to, Decimal.Format(t.nonce), Decimal.Format(t.fee), Decimal.Format(t.gas), t.key, t.value]
  }

  function TxBytes(t: Tx): str {
    Join(TxFields(t))
  }

  /** The hashed transaction, cut at its separators. */
  lemma {:induction false} TxRead(t: Tx)
    requires BAR !in t.id && BAR !in t.from && BAR !in t.to && BAR !in t.key && BAR !in t.value
    ensures var f := Cut(TxBytes(t));
      && |f| == 8
      && f[0] == t.id && f[1] == t.from && f[2] == t.to
      && Decimal.Read(f[3]) == t.nonce && Decimal.Read(f[4]) == t.fee && Decimal.Read(f[5]) == t.gas
      && f[6] == t.key && f[7] == t.value
  {
    CutJoin(TxFields(t));
    Decimal.FormatMeans(t.nonce);
    Decimal.FormatMeans(t.fee);
    Decimal.FormatMeans(t.gas);
  }

  function TxHash(t: Tx): str {
    Hash(TxBytes(t))
  }

  /** Two transactions that agree wherever `TxHash` looks; expiry, size and signature are not hashed. */
  predicate SameHashedFields(a: Tx, b: Tx) {
    && a.id == b.id && a.from == b.from && a.to == b.to
    && a.nonce == b.nonce && a.fee == b.fee && a.gas == b.gas
    && a.key == b.key && a.value == b.value
  }

  predicate TxBarFree(t: Tx) {
    BAR !in t.id && BAR !in t.from && BAR !in t.to && BAR !in t.key
  }

  lemma TxBytesInjective(a: Tx, b: Tx)
    requires TxBarFree(a) && TxBarFree(b)
    requires TxBytes(a) == TxBytes(b)
    ensures SameHashedFields(a, b)
  {
    var f, g := TxFields(a), TxFields(b);
    JoinInjective(f, g);
    assert f[0] == g[0] && f[1] == g[1] && f[2] == g[2] && f[3] == g[3];
    assert f[4] == g[4] && f[5] == g[5] && f[6] == g[6] && f[7] == g[7];
    Decimal.FormatInjective(a.nonce, b.nonce);
    Decimal.FormatInjective(a.fee, b.fee);
    Decimal.FormatInjective(a.gas, b.gas);
  }

  /** Why `|` in hashed fields matters: the two ways to cut `k|r|v` are different writes with one hashed string. */
  lemma BarInKeyCollides(t: Tx, k: str, r: str, v: str)
    ensures TxBytes(t.(key := k + [BAR] + r, value := v)) == TxBytes(t.(key := k, value := r + [BAR] + v))
    ensures !SameHashedFields(t.(key := k + [BAR] + r, value := v), t.(key := k, value := r + [BAR] + v))
  {
    var f := TxFields(t);
    MoveBar(f, 6, k, r, v);
    assert TxFields(t.(key := k + [BAR] + r, value := v)) == f[6 := k + [BAR] + r][7 := v];
    assert TxFields(t.(key := k, value := r + [BAR] + v)) == f[6 := k][7 := r + [BAR] + v];
    assert |k + [BAR] + r| > |k|;
  }

  /** The hashed string tells every hashed field. */
  ghost predicate TxReadable(t: Tx) {
    forall u :: TxBytes(u) == TxBytes(t) ==> SameHashedFields(t, u)
  }

  lemma {:induction false} BarInTx(t: Tx) returns (u: Tx)
    requires !TxBarFree(t) || BAR in t.value
    ensures !SameHashedFields(t, u) && TxBytes(u) == TxBytes(t)
  {
    var (i, j) :=
      if BAR in t.id then (0, 1) else if BAR in t.from then (1, 2) else if BAR in t.to then (2, 1)
      else if BAR in t.key then (6, 7) else (7, 6);
    var g := ShiftBar(TxFields(t), i, j);
    u := t.(id := g[0], from := g[1], to := g[2], key := g[6], value := g[7]);
    assert TxFields(u) == g && TxFields(u)[i] != TxFields(t)[i];
  }

  /** Exactly when a transaction string can be read back: when no string field hashed holds the separator. */
  lemma {:induction false} TxReadableIff(t: Tx)
    ensures TxReadable(t) <==> TxBarFree(t) && BAR !in t.value
  {
    if TxBarFree(t) && BAR !in t.value {
      forall u | TxBytes(u) == TxBytes(t)
        ensures SameHashedFields(t, u)
      {
        JoinReadBack(TxFields(t), TxFields(u));
        assert TxFields(u)[0] == u.id && TxFields(u)[1] == u.from && TxFields(u)[2] == u.to && TxFields(u)[6] == u.key;
        TxBytesInjective(t, u);
      }
    } else {
      var _ := BarInTx(t);
    }
  }

  /** The identifier is the first field, so it can be read back whatever the other fields hold. */
  lemma TxBytesFixId(a: Tx, b: Tx)
    requires BAR !in a.id && BAR !in b.id
    requires TxBytes(a) == TxBytes(b)
    ensures a.id == b.id
  {
    SplitAtSeparator(a.id, Join(TxFields(a)[1..]), b.id, Join(TxFields(b)[1..]), BAR);
  }
}
