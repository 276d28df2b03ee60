/** The block index: internal/repository/index.go. */
module BlockIndex {
  import opened Bytes
  import opened Options
  import opened ChainTypes

  // ----- What the index stands for: a log of accepted blocks

  datatype Entry = Entry(hash: str, height: u64, proposer: str)

  datatype IndexOp = Add(b: Block) | RemoveAbove(h: u64)

  function EntryOf(b: Block): Entry {
    Entry(b.hash, b.header.height, b.header.proposer)
  }

  predicate Logged(log: seq<Entry>, hash: str) {
    exists i :: 0 <= i < |log| && log[i].hash == hash
  }

  function Keep(log: seq<Entry>, h: u64): seq<Entry> {
    if log == [] then []
    else
      var kept := Keep(log[..|log| - 1], h);
      if log[|log| - 1].height <= h then kept + [log[|log| - 1]] else kept
  }

  function LogAfter(log: seq<Entry>, op: IndexOp): seq<Entry> {
    match op
    case Add(b) => if b.hash == [] || Logged(log, b.hash) then log else log + [EntryOf(b)]
    case RemoveAbove(h) => Keep(log, h)
  }

  // ----- The three indexes

  datatype Indexes = Indexes(heights: seq<u64>, hashes: map<str, u64>, proposers: map<str, seq<u64>>)

  function AtMost(xs: seq<u64>, h: u64): (ys: seq<u64>)
    ensures |ys| <= |xs|
  {
    if xs == [] then []
    else
      var kept := AtMost(xs[..|xs| - 1], h);
      if xs[|xs| - 1] <= h then kept + [xs[|xs| - 1]] else kept
  }

  function ProposedBy(proposers: map<str, seq<u64>>, p: str): seq<u64> {
    if p in proposers then proposers[p] else []
  }

  datatype AddError = HashRequired | AlreadyIndexed

  function AddFault(x: Indexes, b: Block): Option<AddError> {
    if b.hash == [] then Some(HashRequired) else if b.hash in x.hashes then Some(AlreadyIndexed) else None
  }

  function AfterAdd(x: Indexes, b: Block): Indexes {
    if AddFault(x, b).Some? then x
    else
      Indexes(
        x.heights + [b.header.height],
        x.hashes[b.hash := b.header.height],
        x.proposers[b.header.proposer := ProposedBy(x.proposers, b.header.proposer) + [b.header.height]])
  }

  function AfterRemoveAbove(x: Indexes, h: u64): Indexes {
    Indexes(
      AtMost(x.heights, h),
      map k | k in x.hashes && x.hashes[k] <= h :: x.hashes[k],
      map p | p in x.proposers :: AtMost(x.proposers[p], h))
  }

  function After(x: Indexes, op: IndexOp): Indexes {
    match op
    case Add(b) => AfterAdd(x, b)
    case RemoveAbove(h) => AfterRemoveAbove(x, h)
  }

  // ----- Projections of the log

  function HeightsOf(log: seq<Entry>): seq<u64> {
    if log == [] then [] else HeightsOf(log[..|log| - 1]) + [log[|log| - 1].height]
  }

  function ProposedIn(log: seq<Entry>, p: str): seq<u64> {
    if log == [] then []
    else
      var before := ProposedIn(log[..|log| - 1], p);
      if log[|log| - 1].proposer == p then before + [log[|log| - 1].height] else before
  }

  ghost predicate HashesMatch(log: seq<Entry>, hashes: map<str, u64>) {
    && (forall i :: 0 <= i < |log| ==> log[i].hash in hashes && hashes[log[i].hash] == log[i].height)
    && (forall k :: k in hashes ==> Logged(log, k))
    && (forall i, j :: 0 <= i < j < |log| ==> log[i].hash != log[j].hash)
  }

  /** All three indexes are projections of the log. */
  ghost predicate Projects(log: seq<Entry>, x: Indexes) {
    && x.heights == HeightsOf(log)
    && HashesMatch(log, x.hashes)
    && forall p :: ProposedBy(x.proposers, p) == ProposedIn(log, p)
  }

  lemma AppendMatches(log: seq<Entry>, hashes: map<str, u64>, e: Entry)
    requires HashesMatch(log, hashes) && e.hash !in hashes
    ensures HashesMatch(log + [e], hashes[e.hash := e.height])
  {
    var more := log + [e];
    forall k | k in hashes[e.hash := e.height]
      ensures Logged(more, k)
    {
      if k == e.hash {
        assert more[|log|].hash == k;
      } else {
        var i :| 0 <= i < |log| && log[i].hash == k;
        assert more[i].hash == k;
      }
    }
  }

  lemma AppendProposed(log: seq<Entry>, x: Indexes, b: Block, p: str)
    requires ProposedBy(x.proposers, p) == ProposedIn(log, p) && AddFault(x, b).None?
    ensures ProposedBy(AfterAdd(x, b).proposers, p) == ProposedIn(log + [EntryOf(b)], p)
  {
    ProposedAppend(log, EntryOf(b), p);
  }

  lemma {:induction false} AppendProjects(log: seq<Entry>, x: Indexes, b: Block)
    requires Projects(log, x) && AddFault(x, b).None?
    ensures Projects(log + [EntryOf(b)], AfterAdd(x, b))
  {
    AppendMatches(log, x.hashes, EntryOf(b));
    HeightsAppend(log, EntryOf(b));
    forall p
      ensures ProposedBy(AfterAdd(x, b).proposers, p) == ProposedIn(log + [EntryOf(b)], p)
    {
      AppendProposed(log, x, b, p);
    }
  }

  lemma LoggedIffHashed(log: seq<Entry>, hashes: map<str, u64>, k: str)
    requires HashesMatch(log, hashes)
    ensures Logged(log, k) <==> k in hashes
  {
  }

  lemma AtMostAppend(xs: seq<u64>, x: u64, h: u64)
    ensures AtMost(xs + [x], h) == if x <= h then AtMost(xs, h) + [x] else AtMost(xs, h)
  {
    assert (xs + [x])[..|xs + [x]| - 1] == xs;
  }

  /** Filtering keeps the order, part by part. */
  lemma {:induction false} AtMostConcat(xs: seq<u64>, ys: seq<u64>, h: u64)
    ensures AtMost(xs + ys, h) == AtMost(xs, h) + AtMost(ys, h)
  {
    if ys == [] {
      assert xs + ys == xs;
    } else {
      var init, y := ys[..|ys| - 1], ys[|ys| - 1];
      AtMostConcat(xs, init, h);
      assert xs + ys == (xs + init) + [y] && ys == init + [y];
      AtMostAppend(xs + init, y, h);
      AtMostAppend(init, y, h);
      Regroup(AtMost(xs, h), AtMost(init, h), [y]);
    }
  }

  lemma {:induction false} AtMostOne(x: u64, h: u64)
    ensures AtMost([x], h) == if x <= h then [x] else []
  {
    assert [x][..0] == [];
  }

  lemma HeightsAppend(log: seq<Entry>, e: Entry)
    ensures HeightsOf(log + [e]) == HeightsOf(log) + [e.height]
  {
    assert (log + [e])[..|log + [e]| - 1] == log;
  }

  lemma ProposedAppend(log: seq<Entry>, e: Entry, p: str)
    ensures ProposedIn(log + [e], p) ==
            if e.proposer == p then ProposedIn(log, p) + [e.height] else ProposedIn(log, p)
  {
    assert (log + [e])[..|log + [e]| - 1] == log;
  }

  lemma {:induction false} KeepHeights(log: seq<Entry>, h: u64)
    ensures HeightsOf(Keep(log, h)) == AtMost(HeightsOf(log), h)
  {
    if log != [] {
      var init, e := log[..|log| - 1], log[|log| - 1];
      KeepHeights(init, h);
      AtMostAppend(HeightsOf(init), e.height, h);
      HeightsAppend(Keep(init, h), e);
    }
  }

  lemma {:induction false} KeepProposed(log: seq<Entry>, h: u64, p: str)
    ensures ProposedIn(Keep(log, h), p) == AtMost(ProposedIn(log, p), h)
  {
    if log != [] {
      var init, e := log[..|log| - 1], log[|log| - 1];
      KeepProposed(init, h, p);
      AtMostAppend(ProposedIn(init, p), e.height, h);
      ProposedAppend(Keep(init, h), e, p);
    }
  }

  lemma {:induction false} KeepMembers(log: seq<Entry>, h: u64)
    ensures forall e :: e in Keep(log, h) <==> e in log && e.height <= h
    ensures (forall i, j :: 0 <= i < j < |log| ==> log[i].hash != log[j].hash) ==>
              forall i, j :: 0 <= i < j < |Keep(log, h)| ==> Keep(log, h)[i].hash != Keep(log, h)[j].hash
  {
    if log != [] {
      var init, e := log[..|log| - 1], log[|log| - 1];
      KeepMembers(init, h);
      assert log == init + [e];
      if forall i, j :: 0 <= i < j < |log| ==> log[i].hash != log[j].hash {
        var k := Keep(init, h);
        forall i | 0 <= i < |k|
          ensures k[i].hash != e.hash
        {
          assert k[i] in init;
        }
      }
    }
  }

  lemma KeepHashes(log: seq<Entry>, hashes: map<str, u64>, h: u64)
    requires HashesMatch(log, hashes)
    ensures HashesMatch(Keep(log, h), map k | k in hashes && hashes[k] <= h :: hashes[k])
  {
    KeepMembers(log, h);
    var kept, left := Keep(log, h), map k | k in hashes && hashes[k] <= h :: hashes[k];
    forall i | 0 <= i < |kept|
      ensures kept[i].hash in left && left[kept[i].hash] == kept[i].height
    {
      assert kept[i] in kept;
    }
    forall k | k in left
      ensures Logged(kept, k)
    {
      var i :| 0 <= i < |log| && log[i].hash == k;
      assert log[i] in kept;
    }
  }

  lemma RemoveProjects(log: seq<Entry>, x: Indexes, h: u64)
    requires Projects(log, x)
    ensures Projects(Keep(log, h), AfterRemoveAbove(x, h))
  {
    KeepHeights(log, h);
    KeepHashes(log, x.hashes, h);
    forall p
      ensures ProposedBy(AfterRemoveAbove(x, h).proposers, p) == ProposedIn(Keep(log, h), p)
    {
      KeepProposed(log, h, p);
    }
  }

  // ----- Runs

  const EMPTY := Indexes([], map[], map[])

  function RunIndexes(ops: seq<IndexOp>): Indexes {
    if ops == [] then EMPTY else After(RunIndexes(ops[..|ops| - 1]), ops[|ops| - 1])
  }

  function RunLog(ops: seq<IndexOp>): seq<Entry> {
    if ops == [] then [] else LogAfter(RunLog(ops[..|ops| - 1]), ops[|ops| - 1])
  }

  lemma OpProjects(log: seq<Entry>, x: Indexes, op: IndexOp)
    requires Projects(log, x)
    ensures Projects(LogAfter(log, op), After(x, op))
  {
    match op
    case Add(b) =>
      LoggedIffHashed(log, x.hashes, b.hash);
      if AddFault(x, b).None? {
        AppendProjects(log, x, b);
      }
    case RemoveAbove(h) => RemoveProjects(log, x, h);
  }

  /** Over every run of additions and removals the indexes are the projections of one log of accepted blocks. */
  lemma {:induction false} RunProjects(ops: seq<IndexOp>)
    ensures Projects(RunLog(ops), RunIndexes(ops))
  {
    if ops != [] {
      RunProjects(ops[..|ops| - 1]);
      OpProjects(RunLog(ops[..|ops| - 1]), RunIndexes(ops[..|ops| - 1]), ops[|ops| - 1]);
    }
  }

  // ----- The index object

  /** `keep := xs[:0]` followed by appends: survivors move down inside the array they are read from. */
  method Compact(xs: array<u64>, h: u64) returns (n: nat)
    modifies xs
    ensures n <= xs.Length && xs[..n] == AtMost(old(xs[..]), h)
  {
    n := 0;
    for i := 0 to xs.Length
      invariant n <= i
      invariant xs[..n] == AtMost(old(xs[..])[..i], h)
      invariant xs[i..] == old(xs[..])[i..]
    {
      ghost var before := old(xs[..]);
      assert before[..i + 1][..i] == before[..i];
      var x := xs[i];
      assert x == before[i] by {
        assert xs[i..][0] == before[i..][0];
      }
      if x <= h {
        xs[n] := x;
        n := n + 1;
        assert xs[..n] == AtMost(before[..i], h) + [x];
      }
      assert xs[i + 1..] == before[i..][1..];
    }
    assert old(xs[..])[..xs.Length] == old(xs[..]);
  }

  class Index {
    var heights: seq<u64>
    var hashes: map<str, u64>
    var proposers: map<str, seq<u64>>

    ghost function State(): Indexes
      reads this
    {
      Indexes(heights, hashes, proposers)
    }

    constructor ()
      ensures State() == EMPTY
    {
      heights, hashes, proposers := [], map[], map[];
    }

    method Add(b: Block) returns (err: Option<AddError>)
      modifies this
      ensures err == AddFault(old(State()), b)
      ensures State() == AfterAdd(old(State()), b)
      ensures err == Some(HashRequired) <==> b.hash == []
      ensures err == Some(AlreadyIndexed) <==> b.hash != [] && b.hash in old(hashes)
      ensures err.Some? ==> State() == old(State())
      ensures err.None? ==> heights == old(heights) + [b.header.height]
      ensures err.None? ==> hashes == old(hashes)[b.hash := b.header.height]
      ensures err.None? ==>
        forall p :: ProposedBy(proposers, p) ==
                    ProposedBy(old(proposers), p) + if p == b.header.proposer then [b.header.height] else []
    {
      if b.hash == [] {
        return Some(HashRequired);
      }
      if b.hash in hashes {
        return Some(AlreadyIndexed);
      }
      heights := heights + [b.header.height];
      hashes := hashes[b.hash := b.header.height];
      var p := b.header.proposer;
      proposers := proposers[p := (if p in proposers then proposers[p] else []) + [b.header.height]];
      return None;
    }

    method RemoveAbove(h: u64)
      modifies this
      ensures State() == AfterRemoveAbove(old(State()), h)
    {
      FilterHeights(h);
      FilterHashes(h);
      FilterProposers(h);
    }

    method FilterHeights(h: u64)
      modifies this`heights
      ensures heights == AtMost(old(heights), h)
    {
      var kept: seq<u64> := [];
      for i := 0 to |heights|
        invariant kept == AtMost(heights[..i], h)
      {
        assert heights[..i + 1][..i] == heights[..i];
        if heights[i] <= h {
          kept := kept + [heights[i]];
        }
      }
      assert heights[..|heights|] == heights;
      heights := kept;
    }

    method FilterHashes(h: u64)
      modifies this`hashes
      ensures hashes == map k | k in old(hashes) && old(hashes)[k] <= h :: old(hashes)[k]
    {
      var rest := hashes.Keys;
      while rest != {}
        invariant rest <= old(hashes).Keys
        invariant hashes == map k | k in old(hashes) && (k in rest || old(hashes)[k] <= h) :: old(hashes)[k]
        decreases |rest|
      {
        var k :| k in rest;
        if hashes[k] > h {
          hashes := hashes - {k};
        }
        rest := rest - {k};
      }
    }

    method FilterProposers(h: u64)
      modifies this`proposers
      ensures proposers == map p | p in old(proposers) :: AtMost(old(proposers)[p], h)
    {
      var rest := proposers.Keys;
      while rest != {}
        invariant rest <= old(proposers).Keys == proposers.Keys
        invariant forall p :: p in proposers ==>
          proposers[p] == if p in rest then old(proposers)[p] else AtMost(old(proposers)[p], h)
        decreases |rest|
      {
        var p :| p in rest;
        var s := proposers[p];
        var xs := new u64[|s|](i requires 0 <= i < |s| => s[i]);
        assert xs[..] == s;
        var n := Compact(xs, h);
        proposers := proposers[p := xs[..n]];
        rest := rest - {p};
      }
    }
  }
}
