/** The consensus engine: internal/consensus/bft.go and simulator.go. */
module Engine {
  import opened Bytes
  import opened ChainTypes
  import opened Validation

  datatype Phase = Proposal | Prevote | Precommit | Commit | ViewChange

  datatype EngineState = EngineState(
    height: u64, view: u64, phase: Phase, validators: seq<Validator>, votes: map<str, Vote>)

  datatype Action = DoStep | DoVote(v: Vote) | DoSetHeight(h: u64) | DoSetView(w: u64)

  function AfterStep(e: EngineState): EngineState {
    match e.phase
    case Proposal => e.(phase := Prevote)
    case Prevote => e.(phase := Precommit)
    case Precommit => e.(phase := Commit)
    case Commit => e.(height := Wrap64(e.height + 1), view := 0, phase := Proposal)
    case ViewChange => e.(phase := Proposal)
  }

  predicate Counts(e: EngineState, v: Vote) {
    v.height == e.height && v.view == e.view && v.validator !in e.votes
  }

  function Do(e: EngineState, a: Action): EngineState {
    match a
    case DoStep => AfterStep(e)
    case DoVote(v) => if Counts(e, v) then e.(votes := e.votes[v.validator := v]) else e
    case DoSetHeight(h) => e.(height := h, votes := map[])
    case DoSetView(w) => e.(view := w, phase := Proposal, votes := map[])
  }

  function DoAll(e: EngineState, actions: seq<Action>): EngineState {
    if actions == [] then e else Do(DoAll(e, actions[..|actions| - 1]), actions[|actions| - 1])
  }

  /** A round: three steps to the commit, and a fourth to the first view of the next height. */
  lemma {:induction false} RoundOfSteps(e: EngineState)
    requires e.phase == Proposal
    ensures AfterStep(e) == e.(phase := Prevote)
    ensures AfterStep(AfterStep(e)) == e.(phase := Precommit)
    ensures AfterStep(AfterStep(AfterStep(e))) == e.(phase := Commit)
    ensures AfterStep(AfterStep(AfterStep(AfterStep(e)))) == e.(height := Wrap64(e.height + 1), view := 0)
    ensures AfterStep(e.(phase := ViewChange)) == e
  {
  }

  /** The first vote of a name for the current height and view is recorded, and stays until the votes are cleared. */
  lemma {:induction false} FirstVoteCounts(e: EngineState, v: Vote)
    ensures v.height == e.height && v.view == e.view && v.validator !in e.votes ==>
              Do(e, DoVote(v)) == e.(votes := e.votes[v.validator := v])
    ensures !(v.height == e.height && v.view == e.view && v.validator !in e.votes) ==> Do(e, DoVote(v)) == e
  {
  }

  // ----- Which votes the engine holds

  ghost predicate VotesKeyed(e: EngineState) {
    forall a :: a in e.votes ==> e.votes[a].validator == a
  }

  ghost predicate VotesCurrent(e: EngineState) {
    forall a :: a in e.votes ==> e.votes[a].height == e.height && e.votes[a].view == e.view
  }

  /** `Step` keeps the votes when it moves to the next height, so it leaves stale ones there. */
  lemma StepKeepsVotesCurrentIff(e: EngineState)
    requires VotesCurrent(e)
    ensures VotesCurrent(AfterStep(e)) <==> e.phase != Commit || e.votes == map[]
  {
    if e.phase == Commit && e.votes != map[] {
      assert e.votes.Keys != {};
      var a :| a in e.votes.Keys;
      assert AfterStep(e).votes[a].height != AfterStep(e).height;
    }
  }

  /** Runs that step out of a commit only after `SetHeight` or `SetView` cleared the votes. */
  ghost predicate Resets(e: EngineState, actions: seq<Action>) {
    forall i :: 0 <= i < |actions| && actions[i].DoStep? ==> ResetAt(e, actions, i)
  }

  ghost predicate ResetAt(e: EngineState, actions: seq<Action>, i: nat)
    requires i < |actions|
  {
    DoAll(e, actions[..i]).phase != Commit || DoAll(e, actions[..i]).votes == map[]
  }

  lemma ResetsPrefix(e: EngineState, actions: seq<Action>)
    requires actions != [] && Resets(e, actions)
    ensures Resets(e, actions[..|actions| - 1])
  {
    var init := actions[..|actions| - 1];
    forall i | 0 <= i < |init| && init[i].DoStep?
      ensures ResetAt(e, init, i)
    {
      assert init[..i] == actions[..i] && ResetAt(e, actions, i);
    }
  }

  lemma {:induction false} VotesStayCurrent(e: EngineState, actions: seq<Action>)
    requires VotesCurrent(e) && VotesKeyed(e) && Resets(e, actions)
    ensures VotesCurrent(DoAll(e, actions)) && VotesKeyed(DoAll(e, actions))
  {
    if actions != [] {
      ResetsPrefix(e, actions);
      VotesStayCurrent(e, actions[..|actions| - 1]);
      var f, a := DoAll(e, actions[..|actions| - 1]), actions[|actions| - 1];
      if a.DoStep? {
        assert ResetAt(e, actions, |actions| - 1);
        StepKeepsVotesCurrentIff(f);
      }
    }
  }

  // ----- Finality

  /** `Finalized` compares a number of votes with an amount of power. */
  predicate IsFinal(e: EngineState) {
    e.phase == Commit && Wrap64(|e.votes|) >= QuorumOf(e.validators)
  }

  /** Finality implies a quorum when every voter is a validator with some power. */
  lemma FinalizedImpliesQuorum(e: EngineState, votes: seq<Vote>)
    requires TotalPower(e.validators) < TWO_TO_63 && IsFinal(e) && Voters(votes) == e.votes.Keys
    requires forall a :: a in e.votes ==> a in Powers(e.validators) && Powers(e.validators)[a] >= 1
    ensures Reaches(e.validators, Voters(votes))
  {
    CountWithin(Powers(e.validators), e.votes.Keys);
    VotersPower(e.validators, e.votes.Keys);
    WrapSmall(|e.votes|);
    WrapSmall(SetPower(Powers(e.validators), e.votes.Keys));
  }

  /** With powers of one, finality is a quorum in the commit phase. */
  lemma FinalizedIffQuorumForUnitPower(e: EngineState)
    requires TotalPower(e.validators) < TWO_TO_63
    requires forall a :: a in e.votes ==> a in Powers(e.validators) && Powers(e.validators)[a] == 1
    ensures IsFinal(e) <==> e.phase == Commit && Reaches(e.validators, e.votes.Keys)
  {
    CountWithin(Powers(e.validators), e.votes.Keys);
    VotersPower(e.validators, e.votes.Keys);
    WrapSmall(|e.votes|);
    WrapSmall(SetPower(Powers(e.validators), e.votes.Keys));
  }

  /** With larger powers it need not be: the vote of a sole validator is a quorum but never final. */
  lemma SoleHeavyValidatorNeverFinal(e: EngineState, v: Validator)
    requires e.validators == [v] && 2 <= v.power < TWO_TO_63 && e.votes.Keys == {v.address}
    ensures Reaches(e.validators, e.votes.Keys) && !IsFinal(e)
  {
    assert [v][..0] == [];
    assert TotalPower([v]) == v.power;
    assert Powers([v]) == map[v.address := v.power];
    assert {} + {v.address} == {v.address};
    SetPowerAdd(Powers([v]), {}, v.address);
    assert |e.votes| == |e.votes.Keys| == 1;
    ReachesMeansTwoThirds([v], {v.address});
  }

  /** For every engine of these validators in which only they have voted, finality is a quorum in the commit phase. */
  ghost predicate FinalIsQuorum(v: seq<Validator>) {
    forall e: EngineState :: e.validators == v && e.votes.Keys <= Powers(v).Keys ==>
      (IsFinal(e) <==> e.phase == Commit && Reaches(v, e.votes.Keys))
  }

  /** An engine in the commit phase holding the votes of `voters`. */
  ghost function Committed(v: seq<Validator>, voters: set<str>): (e: EngineState)
    ensures e.votes.Keys == voters && |e.votes| == |voters| && VotesKeyed(e) && VotesCurrent(e)
  {
    var votes := map a | a in voters :: Vote(a, 0, 0, [], []);
    assert votes.Keys == voters && |votes| == |votes.Keys|;
    EngineState(0, 0, Commit, v, votes)
  }

  lemma FinalIsQuorumIffCountDecides(v: seq<Validator>)
    ensures FinalIsQuorum(v) <==> CountDecides(v)
  {
    if FinalIsQuorum(v) {
      forall s | s <= Powers(v).Keys
        ensures Reaches(v, s) <==> Wrap64(|s|) >= QuorumOf(v)
      {
        var e := Committed(v, s);
        assert IsFinal(e) <==> e.phase == Commit && Reaches(v, e.votes.Keys);
      }
    }
    if CountDecides(v) {
      forall e: EngineState | e.validators == v && e.votes.Keys <= Powers(v).Keys
        ensures IsFinal(e) <==> e.phase == Commit && Reaches(v, e.votes.Keys)
      {
        assert |e.votes| == |e.votes.Keys|;
      }
    }
  }

  /** Exactly when `Finalized` is a quorum test on the votes of validators: when every power is one. */
  lemma {:induction false} FinalIsQuorumIff(v: seq<Validator>)
    requires TotalPower(v) < TWO_TO_63 && HavePower(v)
    ensures FinalIsQuorum(v) <==> UnitPowers(v) || !Reaches(v, Powers(v).Keys)
    ensures DistinctAddresses(v) ==> (FinalIsQuorum(v) <==> forall i :: 0 <= i < |v| ==> v[i].power == 1)
  {
    FinalIsQuorumIffCountDecides(v);
    CountDecidesIff(v);
    if DistinctAddresses(v) {
      CountDecidesIffUnit(v);
    }
  }

  lemma {:induction false} LongerName(taken: set<str>) returns (name: str)
    ensures forall a :: a in taken ==> |a| < |name|
    decreases |taken|
  {
    name := [];
    if taken != {} {
      var a :| a in taken;
      name := LongerName(taken - {a});
      if |name| <= |a| {
        name := a + [NUL];
      }
    }
  }

  lemma {:induction false} FreshNames(taken: set<str>, n: nat) returns (names: set<str>)
    ensures |names| == n && names !! taken
  {
    names := {};
    if n > 0 {
      names := FreshNames(taken, n - 1);
      var name := LongerName(taken + names);
      names := names + {name};
    }
  }

  /** Votes of strangers count, so whoever the validators are, an engine can be final without any of them. */
  lemma {:induction false} StrangersFinalize(v: seq<Validator>)
    ensures exists e: EngineState ::
              && e.validators == v && VotesKeyed(e) && VotesCurrent(e)
              && IsFinal(e) && e.votes.Keys !! Powers(v).Keys && !Reaches(v, e.votes.Keys)
  {
    var strangers := FreshNames(Powers(v).Keys, QuorumOf(v));
    var e := Committed(v, strangers);
    WrapSmall(|e.votes|);
    StrangersHaveNoPower(Powers(v), strangers);
    assert IsFinal(e) && !Reaches(v, e.votes.Keys);
  }

  /** Votes outlive their height: without a single new vote the next height becomes final as well. */
  lemma FinalityCarriesOver(e: EngineState)
    requires IsFinal(e)
    ensures var f := DoAll(e, [DoStep, DoStep, DoStep, DoStep]);
      IsFinal(f) && f.height == Wrap64(e.height + 1) && f.votes == e.votes
  {
    var four := [DoStep, DoStep, DoStep, DoStep];
    assert four[..3] == [DoStep, DoStep, DoStep] && [DoStep, DoStep, DoStep][..2] == [DoStep, DoStep];
    assert [DoStep, DoStep][..1] == [DoStep] && [DoStep][..0] == [];
    assert DoAll(e, [DoStep]) == AfterStep(e);
    assert DoAll(e, [DoStep, DoStep]) == AfterStep(AfterStep(e));
    assert DoAll(e, [DoStep, DoStep, DoStep]) == AfterStep(AfterStep(AfterStep(e)));
  }

  class Bft {
    var height: u64
    var view: u64
    var phase: Phase
    const validators: seq<Validator>
    var votes: map<str, Vote>

    ghost function State(): EngineState
      reads this
    {
      EngineState(height, view, phase, validators, votes)
    }

    constructor (v: seq<Validator>)
      ensures State() == EngineState(0, 0, Proposal, v, map[])
    {
      height, view, phase, validators, votes := 0, 0, Proposal, v, map[];
    }

    method Step()
      modifies this
      ensures State() == Do(old(State()), DoStep)
      ensures phase == match old(phase)
        case Proposal => Prevote
        case Prevote => Precommit
        case Precommit => Commit
        case Commit => Proposal
        case ViewChange => Proposal
      ensures height == if old(phase) == Commit then Wrap64(old(height) + 1) else old(height)
      ensures view == if old(phase) == Commit then 0 else old(view)
      ensures votes == old(votes)
    {
      match phase
      case Proposal => phase := Prevote;
      case Prevote => phase := Precommit;
      case Precommit => phase := Commit;
      case Commit =>
        height := Wrap64(height + 1);
        view := 0;
        phase := Proposal;
      case ViewChange => phase := Proposal;
    }

    method Vote(v: Vote) returns (counted: bool)
      modifies this`votes
      ensures counted <==> Counts(old(State()), v)
      ensures State() == Do(old(State()), DoVote(v))
      ensures counted <==> v.height == height && v.view == view && v.validator !in old(votes)
      ensures votes == if counted then old(votes)[v.validator := v] else old(votes)
    {
      if v.height != height || v.view != view {
        return false;
      }
      if v.validator in votes {
        return false;
      }
      votes := votes[v.validator := v];
      return true;
    }

    method SetHeight(h: u64)
      modifies this
      ensures State() == Do(old(State()), DoSetHeight(h))
      ensures height == h && votes == map[] && view == old(view) && phase == old(phase)
    {
      height, votes := h, map[];
    }

    method SetView(w: u64)
      modifies this
      ensures State() == Do(old(State()), DoSetView(w))
      ensures view == w && phase == Proposal && votes == map[] && height == old(height)
    {
      view, phase, votes := w, Proposal, map[];
    }

    method Finalized() returns (final: bool)
      ensures final <==> IsFinal(State())
      ensures final <==> phase == Commit && Wrap64(|votes|) >= QuorumOf(validators)
    {
      var q := Quorum(validators);
      final := phase == Commit && Wrap64(|votes|) >= q;
    }
  }
}
