/** Checks of transactions and networks, and weighted quorums: internal/chain_domain/validation.go. */
module Validation {
  import opened Bytes
  import opened Options
  import opened ChainTypes

  // ----- Transaction checks

  /** The length in bytes of the Unicode white space that `s` starts with, 0 if it starts with none. */
  function SpaceWidth(s: str): (w: nat)
    ensures w <= |s|
  {
    if |s| >= 1 && (9 <= s[0] <= 13 || s[0] == 32) then 1
    else if |s| >= 2 && s[0] == 0xC2 && (s[1] == 0x85 || s[1] == 0xA0) then 2
    else if |s| >= 3 && s[0] == 0xE1 && s[1] == 0x9A && s[2] == 0x80 then 3
    else if |s| >= 3 && s[0] == 0xE2 && s[1] == 0x80 &&
            (0x80 <= s[2] <= 0x8A || s[2] == 0xA8 || s[2] == 0xA9 || s[2] == 0xAF) then 3
    else if |s| >= 3 && s[0] == 0xE2 && s[1] == 0x81 && s[2] == 0x9F then 3
    else if |s| >= 3 && s[0] == 0xE3 && s[1] == 0x80 && s[2] == 0x80 then 3
    else 0
  }

  /** `strings.TrimSpace(s) == ""`. */
  predicate Blank(s: str) {
    s == [] || (SpaceWidth(s) > 0 && Blank(s[SpaceWidth(s)..]))
  }

  /** Code points that UTF-8 writes in at most three bytes. */
  type rune = c: int | 0 <= c < 0x1_0000

  /** The white space of Unicode. */
  predicate IsSpace(c: rune) {
    9 <= c <= 13 || c == 0x20 || c == 0x85 || c == 0xA0 || c == 0x1680 || 0x2000 <= c <= 0x200A ||
    c == 0x2028 || c == 0x2029 || c == 0x202F || c == 0x205F || c == 0x3000
  }

  function Utf8(c: rune): (s: str)
    ensures s != []
  {
    if c < 0x80 then [c]
    else if c < 0x800 then [0xC0 + c / 0x40, 0x80 + c % 0x40]
    else [0xE0 + c / 0x1000, 0x80 + c / 0x40 % 0x40, 0x80 + c % 0x40]
  }

  function Utf8All(cs: seq<rune>): str {
    if cs == [] then [] else Utf8(cs[0]) + Utf8All(cs[1..])
  }

  lemma {:induction false} SpaceWidthOfSpace(c: rune, rest: str)
    requires IsSpace(c)
    ensures SpaceWidth(Utf8(c) + rest) == |Utf8(c)|
  {
  }

  lemma {:induction false} SpaceInFront(s: str) returns (c: rune)
    requires SpaceWidth(s) > 0
    ensures IsSpace(c) && s[..SpaceWidth(s)] == Utf8(c)
  {
    if SpaceWidth(s) == 1 {
      c := s[0];
    } else if SpaceWidth(s) == 2 {
      c := s[1];
    } else {
      var x: int, y: int, z: int := s[0], s[1], s[2];
      c := (x - 0xE0) * 0x1000 + (y - 0x80) * 0x40 + (z - 0x80);
    }
  }

  lemma {:induction false} BlankIsSpaces(s: str) returns (cs: seq<rune>)
    requires Blank(s)
    ensures (forall i :: 0 <= i < |cs| ==> IsSpace(cs[i])) && s == Utf8All(cs)
    decreases |s|
  {
    cs := [];
    if s != [] {
      var w := SpaceWidth(s);
      var c := SpaceInFront(s);
      var rest := BlankIsSpaces(s[w..]);
      cs := [c] + rest;
      assert cs[1..] == rest;
    }
  }

  lemma {:induction false} SpacesAreBlank(cs: seq<rune>)
    requires forall i :: 0 <= i < |cs| ==> IsSpace(cs[i])
    ensures Blank(Utf8All(cs))
  {
    if cs != [] {
      SpacesAreBlank(cs[1..]);
      SpaceWidthOfSpace(cs[0], Utf8All(cs[1..]));
      assert Utf8All(cs)[|Utf8(cs[0])|..] == Utf8All(cs[1..]);
    }
  }

  /** A blank string is the encoding of white space and nothing else. */
  lemma {:induction false} BlankMeans(s: str)
    ensures Blank(s) <==> exists cs: seq<rune> :: (forall i :: 0 <= i < |cs| ==> IsSpace(cs[i])) && s == Utf8All(cs)
  {
    if Blank(s) {
      var cs := BlankIsSpaces(s);
    }
    if cs: seq<rune> :| (forall i :: 0 <= i < |cs| ==> IsSpace(cs[i])) && s == Utf8All(cs) {
      SpacesAreBlank(cs);
    }
  }

  datatype InvalidTx = FromRequired | ToRequired | InvalidGas | TooLarge | NonceOverflow

  function ValidateTx(t: Tx): (fault: Option<InvalidTx>)
    ensures fault.None? <==>
      && !Blank(t.from) && !Blank(t.to) && 0 < t.gas < TWO_TO_32
      && |t.key| <= 256 && |t.value| <= 4096 && t.nonce < TWO_TO_64 - 1
    ensures fault == Some(FromRequired) <==> Blank(t.from)
    ensures fault == Some(ToRequired) <==> !Blank(t.from) && Blank(t.to)
    ensures fault == Some(InvalidGas) ==> t.gas == 0 || t.gas >= TWO_TO_32
    ensures fault == Some(TooLarge) ==> 0 < t.gas < TWO_TO_32 && (|t.key| > 256 || |t.value| > 4096)
    ensures fault == Some(NonceOverflow) ==>
      0 < t.gas < TWO_TO_32 && |t.key| <= 256 && |t.value| <= 4096 && t.nonce == TWO_TO_64 - 1
  {
    if Blank(t.from) then Some(FromRequired)
    else if Blank(t.to) then Some(ToRequired)
    else if t.gas == 0 || t.gas > TWO_TO_32 - 1 then Some(InvalidGas)
    else if |t.key| > 256 || |t.value| > 4096 then Some(TooLarge)
    else if t.nonce == TWO_TO_64 - 1 then Some(NonceOverflow)
    else None
  }

  // ----- Power

  function TotalPower(v: seq<Validator>): nat {
    if v == [] then 0 else TotalPower(v[..|v| - 1]) + v[|v| - 1].power
  }

  /** The map `HasQuorum` looks powers up in: of validators sharing an address the last one counts. */
  function Powers(v: seq<Validator>): map<str, u64> {
    if v == [] then map[] else Powers(v[..|v| - 1])[v[|v| - 1].address := v[|v| - 1].power]
  }

  function PowerOf(powers: map<str, u64>, a: str): u64 {
    if a in powers then powers[a] else 0
  }

  ghost function SetPower(powers: map<str, u64>, voters: set<str>): nat {
    if voters == {} then 0
    else
      var a :| a in voters;
      PowerOf(powers, a) + SetPower(powers, voters - {a})
  }

  lemma {:induction false} SetPowerAdd(powers: map<str, u64>, voters: set<str>, a: str)
    requires a !in voters
    ensures SetPower(powers, voters + {a}) == SetPower(powers, voters) + PowerOf(powers, a)
    decreases |voters|
  {
    var more := voters + {a};
    var b :| b in more && SetPower(powers, more) == PowerOf(powers, b) + SetPower(powers, more - {b});
    if a == b {
      assert more - {b} == voters;
    } else {
      assert more - {b} == voters - {b} + {a};
      SetPowerAdd(powers, voters - {b}, a);
      assert voters == voters - {b} + {b};
      SetPowerAdd(powers, voters - {b}, b);
    }
  }

  lemma {:induction false} SetPowerUnion(powers: map<str, u64>, s: set<str>, t: set<str>)
    ensures SetPower(powers, s + t) + SetPower(powers, s * t) == SetPower(powers, s) + SetPower(powers, t)
    decreases |s|
  {
    if s == {} {
      assert s + t == t && s * t == s;
    } else {
      var a :| a in s;
      var rest := s - {a};
      SetPowerUnion(powers, rest, t);
      assert s == rest + {a};
      SetPowerAdd(powers, rest, a);
      if a in t {
        assert s + t == rest + t && s * t == rest * t + {a};
        SetPowerAdd(powers, rest * t, a);
      } else {
        assert s + t == (rest + t) + {a} && s * t == rest * t;
        SetPowerAdd(powers, rest + t, a);
      }
    }
  }

  lemma SetPowerMonotone(powers: map<str, u64>, s: set<str>, t: set<str>)
    requires s <= t
    ensures SetPower(powers, s) <= SetPower(powers, t)
  {
    SetPowerUnion(powers, s, t - s);
    assert s + (t - s) == t && s * (t - s) == {};
  }

  lemma {:induction false} SetPowerUpdate(powers: map<str, u64>, a: str, p: u64, voters: set<str>)
    requires a !in voters
    ensures SetPower(powers[a := p], voters) == SetPower(powers, voters)
    decreases |voters|
  {
    if voters != {} {
      var b :| b in voters;
      var rest := voters - {b};
      SetPowerUpdate(powers, a, p, rest);
      assert voters == rest + {b};
      SetPowerAdd(powers, rest, b);
      SetPowerAdd(powers[a := p], rest, b);
    }
  }

  lemma {:induction false} StrangersHaveNoPower(powers: map<str, u64>, voters: set<str>)
    requires voters !! powers.Keys
    ensures SetPower(powers, voters) == 0
    decreases |voters|
  {
    if voters != {} {
      var a :| a in voters;
      StrangersHaveNoPower(powers, voters - {a});
      assert voters == voters - {a} + {a};
      SetPowerAdd(powers, voters - {a}, a);
    }
  }

  lemma SetPowerOutside(powers: map<str, u64>, voters: set<str>)
    ensures SetPower(powers, voters) == SetPower(powers, voters * powers.Keys)
  {
    var known, strangers := voters * powers.Keys, voters - powers.Keys;
    StrangersHaveNoPower(powers, strangers);
    SetPowerUnion(powers, known, strangers);
    assert known + strangers == voters && known * strangers == {};
  }

  predicate DistinctAddresses(v: seq<Validator>) {
    forall i, j :: 0 <= i < j < |v| ==> v[i].address != v[j].address
  }

  lemma {:induction false} PowersKeys(v: seq<Validator>)
    ensures forall a :: a in Powers(v) <==> exists i :: 0 <= i < |v| && v[i].address == a
  {
    if v != [] {
      PowersKeys(v[..|v| - 1]);
      forall a
        ensures a in Powers(v) <==> exists i :: 0 <= i < |v| && v[i].address == a
      {
        if a in Powers(v[..|v| - 1]) {
          var i :| 0 <= i < |v| - 1 && v[..|v| - 1][i].address == a;
          assert v[i].address == a;
        }
        if i :| 0 <= i < |v| && v[i].address == a {
          assert i < |v| - 1 ==> v[..|v| - 1][i].address == a;
        }
      }
    }
  }

  /** All known voters together hold at most the total power, and exactly it when no address repeats. */
  lemma {:induction false} AllPower(v: seq<Validator>)
    ensures SetPower(Powers(v), Powers(v).Keys) <= TotalPower(v)
    ensures DistinctAddresses(v) ==> SetPower(Powers(v), Powers(v).Keys) == TotalPower(v)
  {
    if v != [] {
      var init, x := v[..|v| - 1], v[|v| - 1];
      AllPower(init);
      var old', new' := Powers(init), Powers(v);
      var others := old'.Keys - {x.address};
      assert new'.Keys == others + {x.address};
      SetPowerAdd(new', others, x.address);
      SetPowerUpdate(old', x.address, x.power, others);
      SetPowerMonotone(old', others, old'.Keys);
      if DistinctAddresses(v) {
        PowersKeys(init);
        assert x.address !in old';
        assert others == old'.Keys;
      }
    }
  }

  lemma VotersPower(v: seq<Validator>, voters: set<str>)
    ensures SetPower(Powers(v), voters) <= TotalPower(v)
  {
    SetPowerOutside(Powers(v), voters);
    SetPowerMonotone(Powers(v), voters * Powers(v).Keys, Powers(v).Keys);
    AllPower(v);
  }

  /** Of validators sharing an address the last one gives its power, and nobody else has any. */
  lemma {:induction false} LastPowerCounts(v: seq<Validator>, i: nat, a: str)
    ensures i < |v| && (forall j :: i < j < |v| ==> v[j].address != v[i].address) ==>
              PowerOf(Powers(v), v[i].address) == v[i].power
    ensures (forall j :: 0 <= j < |v| ==> v[j].address != a) ==> PowerOf(Powers(v), a) == 0
  {
    if v != [] && i < |v| {
      LastPowerCounts(v[..|v| - 1], i, a);
    }
    PowersKeys(v);
  }

  // ----- Quorums

  /** `Quorum` as computed: the sum and its double wrap at 2^64. */
  function QuorumOf(v: seq<Validator>): u64 {
    Wrap64(Wrap64(TotalPower(v)) * 2) / 3 + 1
  }

  method Quorum(v: seq<Validator>) returns (q: u64)
    ensures q == QuorumOf(v)
  {
    var p: u64 := 0;
    for i := 0 to |v|
      invariant p == Wrap64(TotalPower(v[..i]))
    {
      assert v[..i + 1][..i] == v[..i];
      WrapSum(TotalPower(v[..i]), v[i].power);
      p := Wrap64(p + v[i].power);
    }
    assert v[..|v|] == v;
    q := Wrap64(p * 2) / 3 + 1;
  }

  /** The computed quorum is two thirds plus one exactly while the power is below 2^63. */
  lemma QuorumIsTwoThirdsIff(v: seq<Validator>)
    ensures QuorumOf(v) == TotalPower(v) * 2 / 3 + 1 <==> TotalPower(v) < TWO_TO_63
  {
    var p := TotalPower(v);
    if p < 0x8000_0000_0000_0000 {
      assert Wrap64(p) == p && Wrap64(p * 2) == p * 2;
    } else {
      assert QuorumOf(v) <= 0x1_0000_0000_0000_0000 / 3 + 1;
    }
  }

  ghost function Voters(votes: seq<Vote>): set<str> {
    set x | x in votes :: x.validator
  }

  ghost predicate Reaches(v: seq<Validator>, voters: set<str>) {
    Wrap64(SetPower(Powers(v), voters)) >= QuorumOf(v)
  }

  /** The loop building the address map of `HasQuorum`. */
  method PowerMap(v: seq<Validator>) returns (powers: map<str, u64>)
    ensures powers == Powers(v)
  {
    powers := map[];
    for i := 0 to |v|
      invariant powers == Powers(v[..i])
    {
      assert v[..i + 1][..i] == v[..i];
      powers := powers[v[i].address := v[i].power];
    }
    assert v[..|v|] == v;
  }

  lemma VotersOneMore(votes: seq<Vote>, i: nat)
    requires i < |votes|
    ensures Voters(votes[..i + 1]) == Voters(votes[..i]) + {votes[i].validator}
  {
    assert votes[..i + 1] == votes[..i] + [votes[i]];
  }

  /** What one more vote adds to the power gathered so far. */
  lemma CountVote(powers: map<str, u64>, votes: seq<Vote>, i: nat)
    requires i < |votes|
    ensures var seen, a := Voters(votes[..i]), votes[i].validator;
      && Voters(votes[..i + 1]) == seen + {a}
      && (a in seen ==> Voters(votes[..i + 1]) == seen)
      && (a !in seen ==> Wrap64(Wrap64(SetPower(powers, seen)) + PowerOf(powers, a)) ==
                         Wrap64(SetPower(powers, Voters(votes[..i + 1]))))
  {
    var seen, a := Voters(votes[..i]), votes[i].validator;
    VotersOneMore(votes, i);
    if a in seen {
      assert seen + {a} == seen;
    } else {
      SetPowerAdd(powers, seen, a);
      var power := SetPower(powers, seen);
      WrapSum(power, PowerOf(powers, a));
      assert SetPower(powers, Voters(votes[..i + 1])) == power + PowerOf(powers, a);
    }
  }

  /** The loop over the votes of `HasQuorum`. */
  method GatherPower(powers: map<str, u64>, votes: seq<Vote>) returns (got: u64)
    ensures got == Wrap64(SetPower(powers, Voters(votes)))
  {
    got := 0;
    var seen: set<str> := {};
    for i := 0 to |votes|
      invariant seen == Voters(votes[..i])
      invariant got == Wrap64(SetPower(powers, Voters(votes[..i])))
    {
      var a := votes[i].validator;
      CountVote(powers, votes, i);
      if a !in seen {
        got := Wrap64(got + if a in powers then powers[a] else 0);
        seen := seen + {a};
      }
    }
    assert votes[..|votes|] == votes;
  }

  method HasQuorum(v: seq<Validator>, votes: seq<Vote>) returns (ok: bool)
    ensures ok <==> Reaches(v, Voters(votes))
  {
    var powers := PowerMap(v);
    var got := GatherPower(powers, votes);
    var q := Quorum(v);
    ok := got >= q;
  }

  /** Below the bound nothing wraps. */
  lemma ReachesMeansTwoThirds(v: seq<Validator>, voters: set<str>)
    requires TotalPower(v) < TWO_TO_63
    ensures SetPower(Powers(v), voters) <= TotalPower(v)
    ensures Reaches(v, voters) <==> SetPower(Powers(v), voters) >= TotalPower(v) * 2 / 3 + 1
  {
    VotersPower(v, voters);
    WrapSmall(SetPower(Powers(v), voters));
    QuorumIsTwoThirdsIff(v);
  }

  /** Any two quorums share voters with more than a third of the power, even when addresses repeat. */
  lemma QuorumsIntersect(v: seq<Validator>, s: set<str>, t: set<str>)
    requires TotalPower(v) < TWO_TO_63
    requires Reaches(v, s) && Reaches(v, t)
    ensures 3 * SetPower(Powers(v), s * t) > TotalPower(v)
  {
    ReachesMeansTwoThirds(v, s);
    ReachesMeansTwoThirds(v, t);
    VotersPower(v, s + t);
    SetPowerUnion(Powers(v), s, t);
  }

  /** Voters lacking less than a third of the power form a quorum when addresses are distinct. */
  lemma QuorumAvailable(v: seq<Validator>, voters: set<str>)
    requires TotalPower(v) < TWO_TO_63 && DistinctAddresses(v)
    requires 3 * SetPower(Powers(v), Powers(v).Keys - voters) < TotalPower(v)
    ensures Reaches(v, voters)
  {
    var all := Powers(v).Keys;
    AllPower(v);
    ReachesMeansTwoThirds(v, voters);
    SetPowerOutside(Powers(v), voters);
    SetPowerUnion(Powers(v), voters * all, all - voters);
    assert (voters * all) + (all - voters) == all && (voters * all) * (all - voters) == {};
  }

  ghost predicate Intersecting(v: seq<Validator>) {
    forall s, t :: Reaches(v, s) && Reaches(v, t) ==> s * t != {}
  }

  /** At the bound and above, two validators sharing the power evenly are each a quorum on their own. */
  lemma HalvesReachAlone(p: u64, a: Validator, b: Validator)
    requires p >= TWO_TO_63 && a.address != b.address && a.power == p / 2 && b.power == p - p / 2
    ensures TotalPower([a, b]) == p
    ensures Reaches([a, b], {a.address}) && Reaches([a, b], {b.address})
  {
    var v := [a, b];
    assert v[..1] == [a] && [a][..0] == [];
    assert TotalPower([a]) == a.power;
    assert Powers([a]) == map[a.address := a.power];
    assert Powers(v) == map[a.address := a.power, b.address := b.power];
    assert {} + {a.address} == {a.address} && {} + {b.address} == {b.address};
    SetPowerAdd(Powers(v), {}, a.address);
    SetPowerAdd(Powers(v), {}, b.address);
    HalfAboveQuorum(p);
  }

  lemma HalfAboveQuorum(p: u64)
    requires p >= 0x8000_0000_0000_0000
    ensures Wrap64(Wrap64(p) * 2) / 3 + 1 <= p / 2
    ensures Wrap64(p / 2) == p / 2 && Wrap64(p - p / 2) == p - p / 2
  {
    assert Wrap64(p) == p;
    assert Wrap64(p * 2) == p * 2 - 0x1_0000_0000_0000_0000;
  }

  // ----- Counting voters

  lemma {:induction false} CountWithin(powers: map<str, u64>, voters: set<str>)
    requires forall a :: a in voters ==> a in powers && powers[a] >= 1
    ensures SetPower(powers, voters) >= |voters|
    ensures (forall a :: a in voters ==> powers[a] == 1) ==> SetPower(powers, voters) == |voters|
    decreases |voters|
  {
    if voters != {} {
      var a :| a in voters;
      CountWithin(powers, voters - {a});
      assert voters == voters - {a} + {a};
      SetPowerAdd(powers, voters - {a}, a);
    }
  }

  /** Comparing the number of voters with the quorum tells whether their power reaches it. */
  ghost predicate CountDecides(v: seq<Validator>) {
    forall s :: s <= Powers(v).Keys ==> (Reaches(v, s) <==> Wrap64(|s|) >= QuorumOf(v))
  }

  ghost predicate HavePower(v: seq<Validator>) {
    forall i :: 0 <= i < |v| ==> v[i].power >= 1
  }

  /** Every address counts with power one. */
  ghost predicate UnitPowers(v: seq<Validator>) {
    forall a :: a in Powers(v) ==> Powers(v)[a] == 1
  }

  lemma {:induction false} PowersPositive(v: seq<Validator>)
    requires HavePower(v)
    ensures forall a :: a in Powers(v) ==> Powers(v)[a] >= 1
  {
    if v != [] {
      PowersPositive(v[..|v| - 1]);
    }
  }

  /** What `CountDecides` compares, without the wrapping that cannot happen below the bound. */
  lemma CountAndPower(v: seq<Validator>, s: set<str>)
    requires TotalPower(v) < TWO_TO_63 && HavePower(v) && s <= Powers(v).Keys
    ensures |s| <= SetPower(Powers(v), s) <= TotalPower(v) && Wrap64(|s|) == |s|
    ensures Reaches(v, s) <==> SetPower(Powers(v), s) >= QuorumOf(v)
    ensures UnitPowers(v) ==> SetPower(Powers(v), s) == |s|
  {
    PowersPositive(v);
    CountWithin(Powers(v), s);
    VotersPower(v, s);
    WrapSmall(|s|);
    WrapSmall(SetPower(Powers(v), s));
  }

  /** Voters with more power than heads can be joined by others until they just reach the quorum. */
  lemma {:induction false} FewVotersReach(v: seq<Validator>, s: set<str>) returns (q: set<str>)
    requires TotalPower(v) < TWO_TO_63 && HavePower(v) && Reaches(v, Powers(v).Keys)
    requires s <= Powers(v).Keys && |s| < SetPower(Powers(v), s) < QuorumOf(v)
    ensures q <= Powers(v).Keys && |q| < QuorumOf(v) && Reaches(v, q)
    decreases Powers(v).Keys - s
  {
    var all := Powers(v).Keys;
    CountAndPower(v, all);
    assert s != all;
    var a :| a in all && a !in s;
    PowersPositive(v);
    SetPowerAdd(Powers(v), s, a);
    CountAndPower(v, s + {a});
    if SetPower(Powers(v), s + {a}) >= QuorumOf(v) {
      q := s + {a};
    } else {
      q := FewVotersReach(v, s + {a});
    }
  }

  lemma {:induction false} HeavyVoterBreaksCount(v: seq<Validator>, a: str)
    requires TotalPower(v) < TWO_TO_63 && HavePower(v) && Reaches(v, Powers(v).Keys)
    requires a in Powers(v) && Powers(v)[a] > 1
    ensures !CountDecides(v)
  {
    assert {} + {a} == {a};
    SetPowerAdd(Powers(v), {}, a);
    CountAndPower(v, {a});
    QuorumIsTwoThirdsIff(v);
    var q := {a};
    if !Reaches(v, {a}) {
      q := FewVotersReach(v, {a});
    }
    CountAndPower(v, q);
    assert Reaches(v, q) && Wrap64(|q|) < QuorumOf(v);
  }

  /** Exactly when counting works: all powers are one, or repeated addresses put the quorum out of reach. */
  lemma {:induction false} CountDecidesIff(v: seq<Validator>)
    requires TotalPower(v) < TWO_TO_63 && HavePower(v)
    ensures CountDecides(v) <==> UnitPowers(v) || !Reaches(v, Powers(v).Keys)
  {
    if UnitPowers(v) || !Reaches(v, Powers(v).Keys) {
      CountAndPower(v, Powers(v).Keys);
      forall s | s <= Powers(v).Keys
        ensures Reaches(v, s) <==> Wrap64(|s|) >= QuorumOf(v)
      {
        CountAndPower(v, s);
        SetPowerMonotone(Powers(v), s, Powers(v).Keys);
      }
    } else {
      PowersPositive(v);
      var a :| a in Powers(v) && Powers(v)[a] != 1;
      HeavyVoterBreaksCount(v, a);
    }
  }

  lemma {:induction false} PowersAt(v: seq<Validator>, i: nat)
    requires DistinctAddresses(v) && i < |v|
    ensures v[i].address in Powers(v) && Powers(v)[v[i].address] == v[i].power
  {
    if i < |v| - 1 {
      PowersAt(v[..|v| - 1], i);
    }
  }

  /** With distinct addresses counting works exactly when every power is one. */
  lemma {:induction false} CountDecidesIffUnit(v: seq<Validator>)
    requires TotalPower(v) < TWO_TO_63 && HavePower(v) && DistinctAddresses(v)
    ensures CountDecides(v) <==> forall i :: 0 <= i < |v| ==> v[i].power == 1
  {
    CountDecidesIff(v);
    if v != [] {
      AllPower(v);
      assert TotalPower(v) >= 1;
      ReachesMeansTwoThirds(v, Powers(v).Keys);
    }
    UnitPowersIff(v);
  }

  lemma UnitPowersIff(v: seq<Validator>)
    requires DistinctAddresses(v)
    ensures UnitPowers(v) <==> forall i :: 0 <= i < |v| ==> v[i].power == 1
  {
    PowersKeys(v);
    forall i | 0 <= i < |v|
      ensures v[i].address in Powers(v) && Powers(v)[v[i].address] == v[i].power
    {
      PowersAt(v, i);
    }
    forall a | a in Powers(v)
      ensures exists i :: 0 <= i < |v| && Powers(v)[a] == v[i].power
    {
      var i :| 0 <= i < |v| && v[i].address == a;
    }
  }

  // ----- Network checks

  predicate ProperValidator(v: Validator) {
    v.address != [] && v.power != 0
  }

  ghost predicate ValidNetwork(n: Network) {
    && n.id != [] && n.chainId != [] && n.validators != []
    && (forall i :: 0 <= i < |n.validators| ==> ProperValidator(n.validators[i]))
    && TotalPower(n.validators) < TWO_TO_64
  }

  lemma {:induction false} PrefixPower(v: seq<Validator>, n: nat)
    requires n <= |v|
    ensures TotalPower(v[..n]) <= TotalPower(v)
  {
    if n < |v| {
      PrefixPower(v[..|v| - 1], n);
      assert v[..|v| - 1][..n] == v[..n];
    } else {
      assert v[..n] == v;
    }
  }

  datatype NetworkFault = IdentityRequired | EmptyValidatorSet | InvalidValidator | PowerOverflow

  /** The first validator in the way, with those before it proper and within 64 bits of power. */
  ghost predicate FirstFault(v: seq<Validator>, i: nat, f: NetworkFault)
    requires i < |v|
  {
    && (forall j :: 0 <= j < i ==> ProperValidator(v[j])) && TotalPower(v[..i]) < TWO_TO_64
    && match f
       case InvalidValidator => !ProperValidator(v[i])
       case PowerOverflow => ProperValidator(v[i]) && TotalPower(v[..i + 1]) >= TWO_TO_64
       case _ => false
  }

  /** The overflow guard admits exactly the validator sets whose power fits in 64 bits, twice what quorums allow. */
  method ValidateNetwork(n: Network) returns (fault: Option<NetworkFault>)
    ensures fault.None? <==> ValidNetwork(n)
    ensures fault.None? <==>
      && n.id != [] && n.chainId != [] && n.validators != []
      && (forall i :: 0 <= i < |n.validators| ==> n.validators[i].address != [] && n.validators[i].power > 0)
      && TotalPower(n.validators) <= 0xFFFF_FFFF_FFFF_FFFF
    ensures fault == Some(IdentityRequired) <==> n.id == [] || n.chainId == []
    ensures fault == Some(EmptyValidatorSet) <==> n.id != [] && n.chainId != [] && n.validators == []
    ensures fault == Some(InvalidValidator) || fault == Some(PowerOverflow) ==>
              exists i :: 0 <= i < |n.validators| && FirstFault(n.validators, i, fault.value)
  {
    if n.id == [] || n.chainId == [] {
      return Some(IdentityRequired);
    }
    if |n.validators| == 0 {
      return Some(EmptyValidatorSet);
    }
    var v := n.validators;
    var total: u64 := 0;
    for i := 0 to |v|
      invariant total == TotalPower(v[..i])
      invariant forall j :: 0 <= j < i ==> ProperValidator(v[j])
    {
      if v[i].address == [] || v[i].power == 0 {
        assert FirstFault(v, i, InvalidValidator);
        return Some(InvalidValidator);
      }
      assert v[..i + 1][..i] == v[..i];
      PrefixPower(v, i + 1);
      if TWO_TO_64 - 1 - total < v[i].power {
        assert FirstFault(v, i, PowerOverflow);
        return Some(PowerOverflow);
      }
      total := total + v[i].power;
    }
    assert v[..|v|] == v;
    return None;
  }

  // ----- The power up to which quorums intersect

  /** Networks that `ValidateNetwork` accepts with total power `p` all have intersecting quorums only below 2^63. */
  lemma {:induction false} QuorumsIntersectIff(p: u64)
    ensures (forall v :: TotalPower(v) == p ==> Intersecting(v)) <==> p < TWO_TO_63
    ensures (forall n :: ValidNetwork(n) && TotalPower(n.validators) == p ==> Intersecting(n.validators)) <==>
            p < TWO_TO_63
  {
    if p < TWO_TO_63 {
      forall v | TotalPower(v) == p
        ensures Intersecting(v)
      {
        LightQuorumsIntersect(v);
      }
    } else {
      var v := [Validator([1], p / 2, []), Validator([2], p - p / 2, [])];
      HalvesReachAlone(p, v[0], v[1]);
      assert {v[0].address} * {v[1].address} == {};
      assert !Intersecting(v);
      var n := Network([1], [], [1], 0, v);
      assert ValidNetwork(n) && n.validators == v;
    }
  }

  lemma LightQuorumsIntersect(v: seq<Validator>)
    requires TotalPower(v) < TWO_TO_63
    ensures Intersecting(v)
  {
    forall s, t | Reaches(v, s) && Reaches(v, t)
      ensures s * t != {}
    {
      QuorumsIntersect(v, s, t);
    }
  }
}
