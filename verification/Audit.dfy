/** The hash-linked audit log: internal/audit/chain.go. */
module Audit {
  import opened Bytes
  import opened Options
  import opened Hashing
  import opened ChainTypes
  import Decimal

  datatype Record = Record(
    sequence: u64, at: int,
    actor: str, action: str, resource: str, payload: str,
    prevHash: str, hash: str, signature: str)

  function RecordFields(r: Record, secret: str): seq<str> {
    [Decimal.Format(r.sequence), r.actor, r.action, r.resource, r.payload, r.prevHash, secret]
  }

  function RecordBytes(r: Record, secret: str): str {
    Join(RecordFields(r, secret))
  }

  /** The hashed record, cut at its separators; the time stamp is not hashed. */
  lemma {:induction false} RecordRead(r: Record, secret: str)
    requires BAR !in r.actor && BAR !in r.action && BAR !in r.resource && BAR !in r.payload
    requires BAR !in r.prevHash && BAR !in secret
    ensures var f := Cut(RecordBytes(r, secret));
      && |f| == 7
      && Decimal.Read(f[0]) == r.sequence
      && f[1] == r.actor && f[2] == r.action && f[3] == r.resource && f[4] == r.payload
      && f[5] == r.prevHash && f[6] == secret
  {
    CutJoin(RecordFields(r, secret));
    Decimal.FormatMeans(r.sequence);
  }

  /** Go's `uint64(i + 1)`. */
  function SequenceAt(i: nat): u64 {
    Wrap64(i + 1)
  }

  function LastHash(rs: seq<Record>): str {
    if rs == [] then [] else rs[|rs| - 1].hash
  }

  predicate RecordOk(rs: seq<Record>, i: nat, secret: str)
    requires i < |rs|
  {
    && rs[i].sequence == SequenceAt(i)
    && rs[i].prevHash == LastHash(rs[..i])
    && rs[i].hash == Hash(RecordBytes(rs[i], secret))
    && rs[i].signature == rs[i].hash
  }

  ghost predicate Verified(rs: seq<Record>, secret: str) {
    forall i :: 0 <= i < |rs| ==> RecordOk(rs, i, secret)
  }

  /** What a verified log is, record by record. */
  lemma {:induction false} VerifiedMeans(rs: seq<Record>, secret: str)
    ensures Verified(rs, secret) <==>
            forall i :: 0 <= i < |rs| ==>
              && rs[i].sequence == (i + 1) % 0x1_0000_0000_0000_0000
              && rs[i].prevHash == (if i == 0 then [] else rs[i - 1].hash)
              && rs[i].hash == Hash(RecordBytes(rs[i], secret)) && rs[i].signature == rs[i].hash
  {
    forall i | 0 <= i < |rs|
      ensures LastHash(rs[..i]) == if i == 0 then [] else rs[i - 1].hash
    {
    }
    if Verified(rs, secret) {
      forall i | 0 <= i < |rs|
        ensures rs[i].sequence == (i + 1) % 0x1_0000_0000_0000_0000
        ensures rs[i].prevHash == (if i == 0 then [] else rs[i - 1].hash)
        ensures rs[i].hash == Hash(RecordBytes(rs[i], secret)) && rs[i].signature == rs[i].hash
      {
        assert RecordOk(rs, i, secret);
      }
    }
  }

  // ----- Binding

  /** The fields set by callers; the others cannot hold the separator. */
  predicate BarFree(r: Record) {
    BAR !in r.actor && BAR !in r.action && BAR !in r.resource && BAR !in r.payload
  }

  ghost predicate AllBarFree(rs: seq<Record>) {
    forall i :: 0 <= i < |rs| ==> BarFree(rs[i])
  }

  ghost function LogHashed(rs: seq<Record>, secret: str): set<str> {
    set i | 0 <= i < |rs| :: RecordBytes(rs[i], secret)
  }

  /** Equal up to the time stamp, which is not hashed. */
  predicate SameButTime(a: Record, b: Record) {
    a.(at := b.at) == b
  }

  lemma RecordBytesInjective(a: Record, b: Record, secret: str)
    requires BarFree(a) && BarFree(b) && BAR !in a.prevHash && BAR !in b.prevHash
    requires RecordBytes(a, secret) == RecordBytes(b, secret)
    requires a.hash == b.hash && a.signature == b.signature
    ensures SameButTime(a, b)
  {
    var f, g := RecordFields(a, secret), RecordFields(b, secret);
    JoinInjective(f, g);
    assert f[0] == g[0] && f[1] == g[1] && f[2] == g[2] && f[3] == g[3] && f[4] == g[4] && f[5] == g[5];
    Decimal.FormatInjective(a.sequence, b.sequence);
  }

  /** The hashed string and the secret tell every hashed field. */
  ghost predicate RecordReadable(r: Record, secret: str) {
    forall q :: RecordBytes(q, secret) == RecordBytes(r, secret) ==> SameHashedFields(r, q)
  }

  predicate SameHashedFields(a: Record, b: Record) {
    && a.sequence == b.sequence && a.actor == b.actor && a.action == b.action && a.resource == b.resource
    && a.payload == b.payload && a.prevHash == b.prevHash
  }

  lemma RecordReadBack(r: Record, q: Record, secret: str)
    requires BarFree(r) && BAR !in r.prevHash
    requires RecordBytes(q, secret) == RecordBytes(r, secret)
    ensures SameHashedFields(r, q)
  {
    var f, g := RecordFields(r, secret)[..6], RecordFields(q, secret)[..6];
    JoinLast(f, secret);
    JoinLast(g, secret);
    assert RecordFields(r, secret) == f + [secret] && RecordFields(q, secret) == g + [secret];
    assert Join(f) == (Join(f) + [BAR] + secret)[..|Join(f)|];
    assert Join(g) == (Join(g) + [BAR] + secret)[..|Join(g)|];
    JoinReadBack(f, g);
    assert f[0] == g[0] && f[1] == g[1] && f[2] == g[2] && f[3] == g[3] && f[4] == g[4] && f[5] == g[5];
    Decimal.FormatInjective(r.sequence, q.sequence);
  }

  lemma {:induction false} BarInRecord(r: Record, secret: str) returns (q: Record)
    requires !BarFree(r) || BAR in r.prevHash
    ensures !SameHashedFields(r, q) && RecordBytes(q, secret) == RecordBytes(r, secret)
  {
    var (i, j) :=
      if BAR in r.actor then (1, 2) else if BAR in r.action then (2, 3) else if BAR in r.resource then (3, 4)
      else if BAR in r.payload then (4, 5) else (5, 4);
    var g := ShiftBar(RecordFields(r, secret), i, j);
    q := r.(actor := g[1], action := g[2], resource := g[3], payload := g[4], prevHash := g[5]);
    assert RecordFields(q, secret) == g && RecordFields(q, secret)[i] != RecordFields(r, secret)[i];
  }

  /** Exactly when a record string can be read back, whatever the secret: when no other string field holds `|`. */
  lemma {:induction false} RecordReadableIff(r: Record, secret: str)
    ensures RecordReadable(r, secret) <==> BarFree(r) && BAR !in r.prevHash
  {
    if BarFree(r) && BAR !in r.prevHash {
      forall q | RecordBytes(q, secret) == RecordBytes(r, secret)
        ensures SameHashedFields(r, q)
      {
        RecordReadBack(r, q, secret);
      }
    } else {
      var _ := BarInRecord(r, secret);
    }
  }

  lemma VerifiedPrefix(rs: seq<Record>, secret: str, n: nat)
    requires Verified(rs, secret) && n <= |rs|
    ensures Verified(rs[..n], secret)
  {
    forall i | 0 <= i < n
      ensures RecordOk(rs[..n], i, secret)
    {
      assert rs[..n][..i] == rs[..i];
      assert RecordOk(rs, i, secret);
    }
  }

  lemma LastHashHasNoBar(rs: seq<Record>, secret: str)
    requires Verified(rs, secret)
    ensures BAR !in LastHash(rs)
    ensures rs != [] ==> LastHash(rs) != []
  {
    if rs != [] {
      assert RecordOk(rs, |rs| - 1, secret);
    }
  }

  /** The last record and the hash before it, read back from the last hash. */
  lemma LastRecordBinds(a: seq<Record>, b: seq<Record>, secret: str)
    requires a != [] && b != [] && Verified(a, secret) && Verified(b, secret) && AllBarFree(a) && AllBarFree(b)
    requires CollisionFree(LogHashed(a, secret), LogHashed(b, secret))
    requires LastHash(a) == LastHash(b)
    ensures SameButTime(a[|a| - 1], b[|b| - 1])
    ensures LastHash(a[..|a| - 1]) == LastHash(b[..|b| - 1])
  {
    var m, n := |a| - 1, |b| - 1;
    VerifiedPrefix(a, secret, m);
    VerifiedPrefix(b, secret, n);
    LastHashHasNoBar(a[..m], secret);
    LastHashHasNoBar(b[..n], secret);
    assert RecordOk(a, m, secret) && RecordOk(b, n, secret);
    assert RecordBytes(a[m], secret) in LogHashed(a, secret) && RecordBytes(b[n], secret) in LogHashed(b, secret);
    RecordBytesInjective(a[m], b[n], secret);
  }

  lemma PrefixHashed(rs: seq<Record>, secret: str, n: nat)
    requires n <= |rs|
    ensures LogHashed(rs[..n], secret) <= LogHashed(rs, secret)
  {
  }

  lemma {:induction false} LastHashBindsWithin(a: seq<Record>, b: seq<Record>, secret: str)
    requires Verified(a, secret) && Verified(b, secret) && AllBarFree(a) && AllBarFree(b)
    requires CollisionFree(LogHashed(a, secret), LogHashed(b, secret))
    requires LastHash(a) == LastHash(b)
    ensures |a| == |b| && forall i :: 0 <= i < |a| ==> SameButTime(a[i], b[i])
  {
    LastHashHasNoBar(a, secret);
    LastHashHasNoBar(b, secret);
    if a != [] {
      var m, n := |a| - 1, |b| - 1;
      LastRecordBinds(a, b, secret);
      VerifiedPrefix(a, secret, m);
      VerifiedPrefix(b, secret, n);
      PrefixHashed(a, secret, m);
      PrefixHashed(b, secret, n);
      CollisionFreeWithin(LogHashed(a, secret), LogHashed(b, secret),
                          LogHashed(a[..m], secret), LogHashed(b[..n], secret));
      LastHashBindsWithin(a[..m], b[..n], secret);
    }
  }

  /** The last hash of a verified log pins its length and every hashed field of every record. */
  lemma LastHashBindsLog(a: seq<Record>, b: seq<Record>, secret: str)
    requires Verified(a, secret) && Verified(b, secret) && AllBarFree(a) && AllBarFree(b)
    requires CollisionFree(LogHashed(a, secret), LogHashed(b, secret))
    ensures LastHash(a) == LastHash(b) <==> |a| == |b| && forall i :: 0 <= i < |a| ==> SameButTime(a[i], b[i])
  {
    if LastHash(a) == LastHash(b) {
      LastHashBindsWithin(a, b, secret);
    }
  }

  // ----- Appending and reading

  function NextRecord(rs: seq<Record>, secret: str, at: int,
                      actor: str, action: str, resource: str, payload: str): Record {
    var sequence := if rs == [] then 1 else Wrap64(rs[|rs| - 1].sequence + 1);
    var r := Record(sequence, at, actor, action, resource, payload, LastHash(rs), [], []);
    var h := Hash(RecordBytes(r, secret));
    r.(hash := h, signature := h)
  }

  lemma {:induction false} NextRecordOk(rs: seq<Record>, r: Record, secret: str)
    requires rs != [] ==> rs[|rs| - 1].sequence == SequenceAt(|rs| - 1)
    requires r == NextRecord(rs, secret, r.at, r.actor, r.action, r.resource, r.payload)
    ensures RecordOk(rs + [r], |rs|, secret)
  {
    assert (rs + [r])[..|rs|] == rs;
    WrapSum(|rs|, 1);
  }

  lemma OldRecordOk(rs: seq<Record>, r: Record, i: nat, secret: str)
    requires i < |rs| && RecordOk(rs, i, secret)
    ensures RecordOk(rs + [r], i, secret)
  {
    assert (rs + [r])[..i] == rs[..i];
  }

  lemma AppendKeepsVerified(rs: seq<Record>, r: Record, secret: str)
    requires Verified(rs, secret)
    requires r == NextRecord(rs, secret, r.at, r.actor, r.action, r.resource, r.payload)
    ensures Verified(rs + [r], secret)
  {
    if rs != [] {
      assert RecordOk(rs, |rs| - 1, secret);
    }
    NextRecordOk(rs, r, secret);
    forall i | 0 <= i < |rs|
      ensures RecordOk(rs + [r], i, secret)
    {
      OldRecordOk(rs, r, i, secret);
    }
  }

  function After(rs: seq<Record>, s: u64): seq<Record> {
    if rs == [] then []
    else
      var before := After(rs[..|rs| - 1], s);
      if rs[|rs| - 1].sequence > s then before + [rs[|rs| - 1]] else before
  }

  lemma {:induction false} AfterOfCounted(rs: seq<Record>, s: u64)
    requires forall i :: 0 <= i < |rs| ==> rs[i].sequence == i + 1
    ensures After(rs, s) == if s <= |rs| then rs[s..] else []
  {
    if rs != [] {
      AfterOfCounted(rs[..|rs| - 1], s);
      if s < |rs| {
        assert rs[s..] == rs[..|rs| - 1][s..] + [rs[|rs| - 1]];
      }
    }
  }

  lemma CountedRecord(rs: seq<Record>, i: nat, secret: str)
    requires i < |rs| < TWO_TO_64 && RecordOk(rs, i, secret)
    ensures rs[i].sequence == i + 1
  {
    WrapSmall(i + 1);
  }

  /** On a verified log `Since(s)` is exactly what follows the first `s` records. */
  lemma AfterIsSuffix(rs: seq<Record>, s: u64, secret: str)
    requires Verified(rs, secret) && |rs| < TWO_TO_64
    ensures After(rs, s) == if s <= |rs| then rs[s..] else []
  {
    forall i | 0 <= i < |rs|
      ensures rs[i].sequence == i + 1
    {
      CountedRecord(rs, i, secret);
    }
    AfterOfCounted(rs, s);
  }

  datatype LogFault = SequenceGap | LinkMismatch | DigestMismatch

  /** All records before `i` are in order, and `i` fails the check that `f` names but none the code makes before it. */
  ghost predicate FirstFault(rs: seq<Record>, secret: str, i: nat, f: LogFault)
    requires i < |rs|
  {
    && (forall j :: 0 <= j < i ==> RecordOk(rs, j, secret)) && !RecordOk(rs, i, secret)
    && (f == SequenceGap <==> rs[i].sequence != SequenceAt(i))
    && (f == LinkMismatch ==> rs[i].prevHash != LastHash(rs[..i]))
    && (f == DigestMismatch ==> rs[i].prevHash == LastHash(rs[..i]))
  }

  class Chain {
    var records: seq<Record>
    const secret: str

    constructor (secret: str)
      ensures records == [] && this.secret == secret
    {
      this.records, this.secret := [], secret;
    }

    method Append(at: int, actor: str, action: str, resource: str, payload: str) returns (r: Record)
      modifies this
      ensures r.at == at && r.actor == actor && r.action == action && r.resource == resource && r.payload == payload
      ensures records == old(records) + [r]
      ensures r == NextRecord(old(records), secret, at, actor, action, resource, payload)
      ensures old(Verified(records, secret)) ==> Verified(records, secret)
    {
      var prev: str := [];
      var sequence: u64 := 1;
      if |records| > 0 {
        prev := records[|records| - 1].hash;
        sequence := Wrap64(records[|records| - 1].sequence + 1);
      }
      r := Record(sequence, at, actor, action, resource, payload, prev, [], []);
      var h := Hash(RecordBytes(r, secret));
      r := r.(hash := h, signature := h);
      assert r == NextRecord(records, secret, at, actor, action, resource, payload);
      if Verified(records, secret) {
        AppendKeepsVerified(records, r, secret);
      }
      records := records + [r];
    }

    method Verify() returns (fault: Option<LogFault>)
      ensures fault.None? <==> Verified(records, secret)
      ensures fault.Some? ==> exists i :: 0 <= i < |records| && FirstFault(records, secret, i, fault.value)
    {
      var prev: str := [];
      for i := 0 to |records|
        invariant prev == LastHash(records[..i])
        invariant forall j :: 0 <= j < i ==> RecordOk(records, j, secret)
      {
        var r := records[i];
        if r.sequence != Wrap64(i + 1) {
          assert FirstFault(records, secret, i, SequenceGap);
          return Some(SequenceGap);
        }
        if r.prevHash != prev {
          assert FirstFault(records, secret, i, LinkMismatch);
          return Some(LinkMismatch);
        }
        var expected := Hash(RecordBytes(r, secret));
        if r.hash != expected || r.signature != expected {
          assert FirstFault(records, secret, i, DigestMismatch);
          return Some(DigestMismatch);
        }
        assert RecordOk(records, i, secret);
        assert records[..i + 1][i] == r;
        prev := r.hash;
      }
      return None;
    }

    method Since(s: u64) returns (out: seq<Record>)
      ensures out == After(records, s)
      ensures Verified(records, secret) && |records| < TWO_TO_64 ==>
                out == if s <= |records| then records[s..] else []
    {
      out := [];
      for i := 0 to |records|
        invariant out == After(records[..i], s)
      {
        assert records[..i + 1][..i] == records[..i];
        if records[i].sequence > s {
          out := out + [records[i]];
        }
      }
      assert records[..|records|] == records;
      if Verified(records, secret) && |records| < TWO_TO_64 {
        AfterIsSuffix(records, s, secret);
      }
    }
  }
}
