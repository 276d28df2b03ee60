/** Which validators serve at which height, and who proposes: internal/consensus/evidence.go. */
module Schedule {
  import opened Bytes
  import opened ChainTypes
  import opened Validation

  type History = map<u64, seq<Validator>>

  // ----- Rotations

  ghost predicate IsLastRotation(history: History, h: u64, x: u64) {
    x in history && x <= h && forall y :: y in history && y <= h ==> y <= x
  }

  ghost predicate NoRotation(history: History, h: u64) {
    forall y :: y in history ==> y > h
  }

  /** The set serving at `h`: that of the last rotation at or below it, else the initial one. */
  ghost predicate Serves(initial: seq<Validator>, history: History, h: u64, v: seq<Validator>) {
    if NoRotation(history, h) then v == initial else exists x :: IsLastRotation(history, h, x) && v == history[x]
  }

  /** A rotation takes effect from its height up to the next recorded one, and nowhere else. */
  lemma RotationScope(initial: seq<Validator>, history: History, r: u64, rotated: seq<Validator>,
                      h: u64, v: seq<Validator>)
    requires Serves(initial, history[r := rotated], h, v)
    ensures r <= h && (forall y :: y in history && r < y ==> h < y) ==> v == rotated
    ensures h < r || (exists y :: y in history && r < y <= h) ==> Serves(initial, history, h, v)
  {
    var more := history[r := rotated];
    if r <= h && forall y :: y in history && r < y ==> h < y {
      assert r in more && IsLastRotation(more, h, r);
    }
    if h < r || exists y :: y in history && r < y <= h {
      if NoRotation(more, h) {
        assert forall y :: y in history ==> y in more;
      } else {
        var x :| IsLastRotation(more, h, x) && v == more[x];
        assert forall y :: y in history ==> y in more;
        assert x != r;
        assert IsLastRotation(history, h, x);
      }
    }
  }

  // ----- Proposers

  datatype Proposer = NoValidators | Panic | Address(a: str)

  /** Go's `%`, which takes the sign of the dividend. */
  function Remainder(n: int, m: nat): int
    requires m > 0
  {
    if n >= 0 then n % m else -((-n) % m)
  }

  function ProposerOf(vs: seq<Validator>, view: u64): Proposer {
    if vs == [] then NoValidators
    else
      var i := Remainder(ToSigned(view), |vs|);
      if i < 0 then Panic else Address(vs[i].address)
  }

  /** From view 2^63 on, which `int64` takes for negative, the first validator proposes or nobody can. */
  lemma ProposerPanicsIff(vs: seq<Validator>, view: u64)
    ensures ProposerOf(vs, view) == NoValidators <==> vs == []
    ensures ProposerOf(vs, view) == Panic <==> vs != [] && view >= TWO_TO_63 && (TWO_TO_64 - view) % |vs| != 0
    ensures vs != [] && view >= TWO_TO_63 ==> ProposerOf(vs, view) in {Panic, Address(vs[0].address)}
  {
  }

  /** The position that proposes `i` views after `first`. */
  function Turn(count: nat, first: nat, i: nat): nat
    requires count > 0
  {
    (first + i) % count
  }

  lemma ProposerTakesTurns(vs: seq<Validator>, first: u64, i: nat)
    requires vs != [] && first + i < TWO_TO_63
    ensures ProposerOf(vs, first + i) == Address(vs[Turn(|vs|, first, i)].address)
    ensures ProposerOf(vs, first + i) == Address(vs[(first + i) % |vs|].address)
  {
  }

  lemma MultipleGrows(d: int, count: int)
    requires count >= 0
    ensures d >= 1 ==> d * count >= count
    ensures d <= -1 ==> d * count <= -count
  {
    if d >= 1 {
      assert (d - 1) * count >= 0;
    } else if d <= -1 {
      assert (-d - 1) * count >= 0;
    }
  }

  lemma SmallMultipleIsZero(d: int, count: int)
    requires 0 < count && -count < d * count < count
    ensures d == 0
  {
    MultipleGrows(d, count);
  }

  lemma {:induction false} RemainderUnique(n: nat, count: nat, p: nat, s: nat)
    requires count > 0 && n == p * count + s && s < count
    ensures n % count == s
  {
    var q := n / count;
    assert n == q * count + n % count;
    assert (q - p) * count == s - n % count;
    SmallMultipleIsZero(q - p, count);
  }

  lemma {:induction false} TurnWrapsOnce(count: nat, first: nat, i: nat)
    requires i < count
    ensures var r := first % count; Turn(count, first, i) == if r + i < count then r + i else r + i - count
  {
    var q, r := first / count, first % count;
    assert first == q * count + r;
    if r + i < count {
      RemainderUnique(first + i, count, q, r + i);
    } else {
      assert (q + 1) * count == q * count + count;
      RemainderUnique(first + i, count, q + 1, r + i - count);
    }
  }

  /** Over as many consecutive views as there are validators, each position proposes exactly once. */
  lemma EachProposesOnce(count: nat, first: nat, p: nat)
    requires p < count
    ensures exists i :: 0 <= i < count && Turn(count, first, i) == p
    ensures forall i, j :: 0 <= i < count && 0 <= j < count && Turn(count, first, i) == Turn(count, first, j) ==> i == j
  {
    var r := first % count;
    var k := if p >= r then p - r else p - r + count;
    TurnWrapsOnce(count, first, k);
    assert Turn(count, first, k) == p;
    forall i, j | 0 <= i < count && 0 <= j < count && Turn(count, first, i) == Turn(count, first, j)
      ensures i == j
    {
      TurnWrapsOnce(count, first, i);
      TurnWrapsOnce(count, first, j);
    }
  }

  class ValidatorSchedule {
    const validators: seq<Validator>
    const epoch: u64
    var history: History

    constructor (v: seq<Validator>, epoch: u64)
      ensures validators == v && this.epoch == epoch && history == map[]
    {
      validators, this.epoch, history := v, epoch, map[];
    }

    /** Visits the rotations in whatever order iteration yields them. */
    method At(h: u64) returns (out: seq<Validator>)
      ensures Serves(validators, history, h, out)
      ensures (forall y :: y in history ==> y > h) ==> out == validators
      ensures forall x :: x in history && x <= h && (forall y :: y in history && y <= h ==> y <= x) ==>
                            out == history[x]
    {
      var best: u64 := 0;
      out := validators;
      var rest := history.Keys;
      while rest != {}
        invariant rest <= history.Keys
        invariant (forall y :: y in history && y !in rest ==> y > h) ==> out == validators && best == 0
        invariant !(forall y :: y in history && y !in rest ==> y > h) ==>
                    best in history && best <= h && out == history[best]
        invariant forall y :: y in history && y !in rest && y <= h ==> y <= best
        decreases |rest|
      {
        var x :| x in rest;
        if x <= h && x >= best {
          best := x;
          out := history[x];
        }
        rest := rest - {x};
      }
      if !NoRotation(history, h) {
        assert IsLastRotation(history, h, best);
      }
    }

    method Rotate(h: u64, v: seq<Validator>) returns (ok: bool)
      modifies this`history
      ensures ok <==> h != 0 && v != []
      ensures history == if ok then old(history)[h := v] else old(history)
    {
      if h == 0 || |v| == 0 {
        return false;
      }
      history := history[h := v];
      return true;
    }

    method ProposerAt(h: u64, view: u64) returns (p: Proposer)
      ensures exists vs :: Serves(validators, history, h, vs) && p == ProposerOf(vs, view)
      ensures forall vs :: Serves(validators, history, h, vs) ==> p == ProposerOf(vs, view)
    {
      var vs := At(h);
      if |vs| == 0 {
        return NoValidators;
      }
      var i := Remainder(ToSigned(view), |vs|);
      p := if i < 0 then Panic else Address(vs[i].address);
      assert p == ProposerOf(vs, view);
    }

    /** The same quorum as `Validation.Quorum` of the serving set. */
    method QuorumAt(h: u64) returns (q: u64)
      ensures exists vs :: Serves(validators, history, h, vs) && q == QuorumOf(vs)
      ensures forall vs :: Serves(validators, history, h, vs) ==> q == QuorumOf(vs)
    {
      var vs := At(h);
      var p: u64 := 0;
      for i := 0 to |vs|
        invariant p == Wrap64(TotalPower(vs[..i]))
      {
        assert vs[..i + 1][..i] == vs[..i];
        WrapSum(TotalPower(vs[..i]), vs[i].power);
        p := Wrap64(p + vs[i].power);
      }
      assert vs[..|vs|] == vs;
      q := Wrap64(p * 2) / 3 + 1;
    }
  }
}
