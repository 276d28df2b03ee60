/** Self-checking snapshots: internal/state_machine/snapshot.go. */
module SnapshotCatalog {
  import opened Bytes
  import opened Hashing
  import opened StateMachine

  datatype Record = Record(
    id: str, height: u64, root: str, entries: Data, size: nat, checksum: str, verified: bool)

  ghost function ChecksumOf(d: Data): str {
    Hash(Canonical(d, NUL, NUL))
  }

  method Checksum(d: Data) returns (c: str)
    ensures c == ChecksumOf(d)
  {
    var written := WriteCanonical(d, NUL, NUL);
    c := Hash(written);
  }

  /** A checksum taken over one map matches no other. */
  lemma ChecksumBindsEntries(c: Data, d: Data)
    requires Readable(c, NUL, NUL) && Readable(d, NUL, NUL)
    requires CollisionFree({Canonical(c, NUL, NUL)}, {Canonical(d, NUL, NUL)})
    ensures ChecksumOf(c) == ChecksumOf(d) <==> c == d
  {
    if ChecksumOf(c) == ChecksumOf(d) {
      CanonicalInjective(c, d, NUL, NUL);
    }
  }

  /** No other map has the checksum of `d` unless the two written forms collide. */
  ghost predicate DeterminedByChecksum(d: Data) {
    forall c ::
      ChecksumOf(c) == ChecksumOf(d) && CollisionFree({Canonical(c, NUL, NUL)}, {Canonical(d, NUL, NUL)}) ==> c == d
  }

  /** Exactly which maps their checksum tells from all others. */
  lemma {:induction false} DeterminedByChecksumIff(d: Data)
    ensures DeterminedByChecksum(d) <==> d == map[] || SoleEntry(d, NUL)
  {
    WrittenOnceIff(d, NUL, NUL);
    if DeterminedByChecksum(d) {
      forall c | Canonical(c, NUL, NUL) == Canonical(d, NUL, NUL)
        ensures c == d
      {
        assert ChecksumOf(c) == ChecksumOf(d);
      }
    }
  }

  /** The marks under a checksum. */
  lemma {:induction false} ChecksumMarks(d: Data)
    ensures ChecksumOf(d) == Hash(Canonical(d, 0, 0))
  {
  }

  ghost predicate Intact(r: Record) {
    r.checksum == ChecksumOf(r.entries)
  }

  method MakeSnapshot(id: str, h: u64, d: Data) returns (r: Record)
    ensures Intact(r) && r.root == r.checksum
    ensures r.id == id && r.height == h && r.entries == d && r.size == |d| && !r.verified
  {
    var root := Checksum(d);
    var checksum := Checksum(d);
    r := Record(id, h, root, d, |d|, checksum, false);
  }

  class Catalog {
    var items: map<str, Record>
    const max: int

    constructor (max: int)
      ensures items == map[] && this.max == max
    {
      this.items, this.max := map[], max;
    }

    method Put(r: Record) returns (ok: bool)
      modifies this
      ensures ok <==> |old(items)| < max
      ensures items == if ok then old(items)[r.id := r] else old(items)
    {
      if |items| >= max {
        return false;
      }
      items := items[r.id := r];
      return true;
    }

    method Verify(id: str) returns (ok: bool)
      modifies this
      ensures ok <==> id in old(items) && Intact(old(items)[id])
      ensures items == if id in old(items) then old(items)[id := old(items)[id].(verified := ok)] else old(items)
    {
      if id !in items {
        return false;
      }
      var r := items[id];
      var c := Checksum(r.entries);
      r := r.(verified := c == r.checksum);
      items := items[id := r];
      return r.verified;
    }
  }
}
