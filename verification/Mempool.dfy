/** The pool of pending transactions and its two indexes: internal/mempool/pool.go and policy.go. */
module Mempool {
  import opened Bytes
  import opened Sets
  import opened Options
  import opened ChainTypes

  type Account = map<u64, str>

  /** Transactions by identifier, and identifiers by sender and nonce. */
  datatype Pending = Pending(max: int, tx: map<str, Tx>, byAcct: map<str, Account>)

  datatype AddError = PoolFull | DuplicateId | NonceConflict

  function Slot(p: Pending, from: str, nonce: u64): Option<str> {
    if from in p.byAcct && nonce in p.byAcct[from] then Some(p.byAcct[from][nonce]) else None
  }

  // ----- Operations as functions

  function WithId(t: Tx): Tx {
    if t.id == [] then t.(id := TxHash(t)) else t
  }

  function FeeOf(p: Pending, id: str): u64 {
    if id in p.tx then p.tx[id].fee else 0
  }

  function AccountOf(p: Pending, from: str): Account {
    if from in p.byAcct then p.byAcct[from] else map[]
  }

  function Store(p: Pending, t: Tx): Pending {
    p.(tx := p.tx[t.id := t], byAcct := p.byAcct[t.from := AccountOf(p, t.from)[t.nonce := t.id]])
  }

  function AddFault(p: Pending, t: Tx): Option<AddError> {
    if |p.tx| >= p.max then Some(PoolFull)
    else if t.id in p.tx then Some(DuplicateId)
    else
      var slot := Slot(p, t.from, t.nonce);
      if slot.Some? && t.fee <= FeeOf(p, slot.value) then Some(NonceConflict) else None
  }

  /** The pool without the transaction whose slot `t` takes over. */
  function Evicted(p: Pending, t: Tx): Pending {
    var slot := Slot(p, t.from, t.nonce);
    if slot.Some? then p.(tx := p.tx - {slot.value}) else p
  }

  function AfterAdd(p: Pending, t: Tx): Pending {
    var t := WithId(t);
    if AddFault(p, t).Some? then p else Store(Evicted(p, t), t)
  }

  function RemoveOne(p: Pending, id: str): Pending {
    if id !in p.tx then p
    else
      var t := p.tx[id];
      p.(tx := p.tx - {id},
         byAcct := if t.from in p.byAcct then p.byAcct[t.from := p.byAcct[t.from] - {t.nonce}] else p.byAcct)
  }

  function AfterRemove(p: Pending, ids: seq<str>): Pending {
    if ids == [] then p else RemoveOne(AfterRemove(p, ids[..|ids| - 1]), ids[|ids| - 1])
  }

  /** `now` counts nanoseconds, expiry counts seconds. */
  predicate Expired(t: Tx, now: int) {
    t.expiresAt > 0 && t.expiresAt * 1_000_000_000 < now
  }

  function ExpiredIds(p: Pending, now: int): set<str> {
    set id | id in p.tx && Expired(p.tx[id], now)
  }

  predicate Emptied(acct: Account, gone: set<str>) {
    acct != map[] && forall n :: n in acct ==> acct[n] in gone
  }

  function Survivors(acct: Account, gone: set<str>): Account {
    map n | n in acct && acct[n] !in gone :: acct[n]
  }

  /** Prunes the accounts that losing `gone` empties; accounts that were empty already stay. */
  function Pruned(byAcct: map<str, Account>, gone: set<str>): map<str, Account> {
    map a | a in byAcct && !Emptied(byAcct[a], gone) :: Survivors(byAcct[a], gone)
  }

  function Without(p: Pending, gone: set<str>): Pending {
    p.(tx := p.tx - gone, byAcct := Pruned(p.byAcct, gone))
  }

  function AfterExpire(p: Pending, now: int): Pending {
    Without(p, ExpiredIds(p, now))
  }

  // ----- The invariant

  predicate Held(p: Pending, id: str, from: str, nonce: u64) {
    id in p.tx && p.tx[id].id == id && p.tx[id].from == from && p.tx[id].nonce == nonce
  }

  ghost predicate TxIndexed(p: Pending) {
    forall id :: id in p.tx ==> p.tx[id].id == id && Slot(p, p.tx[id].from, p.tx[id].nonce) == Some(id)
  }

  ghost predicate SlotsHeld(p: Pending) {
    forall a, n :: Slot(p, a, n).Some? ==> Held(p, Slot(p, a, n).value, a, n)
  }

  ghost predicate Agrees(p: Pending) {
    TxIndexed(p) && SlotsHeld(p) && (p.tx == map[] || |p.tx| <= p.max)
  }

  /** The two maps are inverse: a slot names an identifier exactly when that transaction is stored for the slot. */
  lemma SlotIffHeld(p: Pending, id: str, from: str, nonce: u64)
    requires Agrees(p)
    ensures Slot(p, from, nonce) == Some(id) <==> Held(p, id, from, nonce)
  {
  }

  lemma OnePerSlot(p: Pending, i: str, j: str)
    requires Agrees(p) && i in p.tx && j in p.tx
    requires p.tx[i].from == p.tx[j].from && p.tx[i].nonce == p.tx[j].nonce
    ensures i == j
  {
  }

  lemma SlotAfterStore(p: Pending, t: Tx, a: str, n: u64)
    ensures Slot(Store(p, t), a, n) == if a == t.from && n == t.nonce then Some(t.id) else Slot(p, a, n)
  {
  }

  lemma StoreAgrees(p: Pending, t: Tx)
    requires TxIndexed(p) && SlotsHeld(p) && t.id !in p.tx && Slot(p, t.from, t.nonce).None?
    ensures TxIndexed(Store(p, t)) && SlotsHeld(Store(p, t))
  {
    var q := Store(p, t);
    forall id | id in q.tx
      ensures q.tx[id].id == id && Slot(q, q.tx[id].from, q.tx[id].nonce) == Some(id)
    {
      SlotAfterStore(p, t, q.tx[id].from, q.tx[id].nonce);
    }
    forall a, n | Slot(q, a, n).Some?
      ensures Held(q, Slot(q, a, n).value, a, n)
    {
      SlotAfterStore(p, t, a, n);
    }
  }

  lemma SlotAfterRemoveOne(p: Pending, id: str, a: str, n: u64)
    requires id in p.tx
    ensures Slot(RemoveOne(p, id), a, n) ==
            if a == p.tx[id].from && n == p.tx[id].nonce then None else Slot(p, a, n)
  {
  }

  lemma RemoveOneIndexed(p: Pending, id: str)
    requires TxIndexed(p) && SlotsHeld(p) && id in p.tx
    ensures TxIndexed(RemoveOne(p, id)) && SlotsHeld(RemoveOne(p, id))
  {
    var q := RemoveOne(p, id);
    forall i | i in q.tx
      ensures q.tx[i].id == i && Slot(q, q.tx[i].from, q.tx[i].nonce) == Some(i)
    {
      SlotAfterRemoveOne(p, id, q.tx[i].from, q.tx[i].nonce);
    }
    forall a, n | Slot(q, a, n).Some?
      ensures Held(q, Slot(q, a, n).value, a, n)
    {
      SlotAfterRemoveOne(p, id, a, n);
    }
  }

  /** Overwriting the slot of a transaction that is deleted comes to removing it first. */
  lemma ReplaceIsRemoveThenStore(p: Pending, t: Tx, id: str)
    requires TxIndexed(p) && SlotsHeld(p) && Slot(p, t.from, t.nonce) == Some(id)
    ensures Store(p.(tx := p.tx - {id}), t) == Store(RemoveOne(p, id), t)
  {
    var r := RemoveOne(p, id);
    assert Held(p, id, t.from, t.nonce);
    assert p.byAcct[t.from][t.nonce := t.id] == (p.byAcct[t.from] - {t.nonce})[t.nonce := t.id];
  }

  lemma ReplaceAgrees(p: Pending, t: Tx, id: str)
    requires TxIndexed(p) && SlotsHeld(p) && t.id !in p.tx && Slot(p, t.from, t.nonce) == Some(id)
    ensures var q := Store(p.(tx := p.tx - {id}), t); TxIndexed(q) && SlotsHeld(q)
  {
    assert Held(p, id, t.from, t.nonce);
    RemoveOneIndexed(p, id);
    SlotAfterRemoveOne(p, id, t.from, t.nonce);
    StoreAgrees(RemoveOne(p, id), t);
    ReplaceIsRemoveThenStore(p, t, id);
  }

  lemma AddAgrees(p: Pending, t: Tx)
    requires Agrees(p)
    ensures Agrees(AfterAdd(p, t))
  {
    var u := WithId(t);
    if AddFault(p, u).None? {
      if Slot(p, u.from, u.nonce).Some? {
        ReplaceAgrees(p, u, Slot(p, u.from, u.nonce).value);
      } else {
        StoreAgrees(p, u);
      }
      assert AfterAdd(p, t).tx.Keys <= p.tx.Keys + {u.id};
      SubsetCardinality(AfterAdd(p, t).tx.Keys, p.tx.Keys + {u.id});
    }
  }

  // ----- What an addition does

  /** The transactions that stay when one with this sender and nonce comes in. */
  function Others(tx: map<str, Tx>, from: str, nonce: u64): map<str, Tx> {
    map id | id in tx && !(tx[id].from == from && tx[id].nonce == nonce) :: tx[id]
  }

  /**
    An addition in terms of the stored transactions alone: it succeeds exactly when there is room, the identifier is
    new, and it outbids whatever is stored for its sender and nonce, which is what leaves; else nothing changes.
   */
  lemma {:induction false} AddExact(p: Pending, t: Tx)
    requires Agrees(p)
    ensures var u := if t.id == [] then t.(id := TxHash(t)) else t;
      var accepted :=
        && |p.tx| < p.max && u.id !in p.tx
        && forall id :: id in p.tx && p.tx[id].from == u.from && p.tx[id].nonce == u.nonce ==> p.tx[id].fee < u.fee;
      && (accepted ==> AfterAdd(p, t).tx == Others(p.tx, u.from, u.nonce)[u.id := u] && AfterAdd(p, t).max == p.max)
      && (!accepted ==> AfterAdd(p, t) == p)
      && (AddFault(p, u).None? <==> accepted)
  {
    var u := WithId(t);
    var slot := Slot(p, u.from, u.nonce);
    if slot.Some? {
      assert Held(p, slot.value, u.from, u.nonce);
      assert forall id :: id in p.tx && p.tx[id].from == u.from && p.tx[id].nonce == u.nonce ==> id == slot.value;
      assert p.tx - {slot.value} == Others(p.tx, u.from, u.nonce);
    } else {
      assert forall id :: id in p.tx ==> !(p.tx[id].from == u.from && p.tx[id].nonce == u.nonce);
      assert p.tx == Others(p.tx, u.from, u.nonce);
    }
  }

  /** Which error is given, the full pool first. */
  lemma {:induction false} AddErrors(p: Pending, t: Tx)
    requires Agrees(p) && t.id != []
    ensures AddFault(p, t) == Some(PoolFull) <==> |p.tx| >= p.max
    ensures AddFault(p, t) == Some(DuplicateId) <==> |p.tx| < p.max && t.id in p.tx
    ensures AddFault(p, t) == Some(NonceConflict) <==>
            && |p.tx| < p.max && t.id !in p.tx
            && exists id :: id in p.tx && p.tx[id].from == t.from && p.tx[id].nonce == t.nonce && t.fee <= p.tx[id].fee
  {
    AddExact(p, t);
    var slot := Slot(p, t.from, t.nonce);
    if slot.Some? {
      assert Held(p, slot.value, t.from, t.nonce);
    }
  }

  lemma RemoveOneAgrees(p: Pending, id: str)
    requires Agrees(p)
    ensures Agrees(RemoveOne(p, id))
  {
    if id in p.tx {
      RemoveOneIndexed(p, id);
      SubsetCardinality((p.tx - {id}).Keys, p.tx.Keys);
    }
  }

  lemma {:induction false} RemoveAgrees(p: Pending, ids: seq<str>)
    requires Agrees(p)
    ensures Agrees(AfterRemove(p, ids))
  {
    if ids != [] {
      RemoveAgrees(p, ids[..|ids| - 1]);
      RemoveOneAgrees(AfterRemove(p, ids[..|ids| - 1]), ids[|ids| - 1]);
    }
  }

  lemma SlotAfterWithout(p: Pending, gone: set<str>, a: str, n: u64)
    ensures Slot(Without(p, gone), a, n) ==
            if Slot(p, a, n).Some? && Slot(p, a, n).value in gone then None else Slot(p, a, n)
  {
  }

  lemma {:induction false} WithoutAgrees(p: Pending, gone: set<str>)
    requires Agrees(p)
    ensures Agrees(Without(p, gone))
  {
    var q := Without(p, gone);
    forall id | id in q.tx
      ensures q.tx[id].id == id && Slot(q, q.tx[id].from, q.tx[id].nonce) == Some(id)
    {
      SlotAfterWithout(p, gone, q.tx[id].from, q.tx[id].nonce);
    }
    forall a, n | Slot(q, a, n).Some?
      ensures Held(q, Slot(q, a, n).value, a, n)
    {
      SlotAfterWithout(p, gone, a, n);
    }
    SubsetCardinality(q.tx.Keys, p.tx.Keys);
  }

  // ----- What an expiry does

  /** A transaction leaves when it has an expiry, in seconds, that lies before `now`, in nanoseconds. */
  lemma {:induction false} ExpireExact(p: Pending, now: int)
    ensures AfterExpire(p, now).tx ==
            map id | id in p.tx && (p.tx[id].expiresAt <= 0 || p.tx[id].expiresAt * 1_000_000_000 >= now) :: p.tx[id]
  {
  }

  lemma ExpiredCount(p: Pending, now: int)
    ensures |ExpiredIds(p, now)| == |p.tx| - |AfterExpire(p, now).tx|
  {
    var gone, left := ExpiredIds(p, now), AfterExpire(p, now).tx;
    assert p.tx.Keys == gone + left.Keys && gone !! left.Keys;
    assert |p.tx.Keys| == |p.tx| && |left.Keys| == |left|;
  }

  /** An account stays when it was empty before or keeps a transaction. */
  lemma {:induction false} ExpireAccounts(p: Pending, now: int, a: str)
    requires Agrees(p) && a in p.byAcct
    ensures a in AfterExpire(p, now).byAcct <==>
            p.byAcct[a] == map[] || exists id :: id in AfterExpire(p, now).tx && p.tx[id].from == a
  {
    var acct: Account, gone := p.byAcct[a], ExpiredIds(p, now);
    if n :| n in acct && acct[n] !in gone {
      assert Slot(p, a, n) == Some(acct[n]) && Held(p, acct[n], a, n);
      assert acct[n] in AfterExpire(p, now).tx;
    }
    if id :| id in AfterExpire(p, now).tx && p.tx[id].from == a {
      assert Slot(p, a, p.tx[id].nonce) == Some(id);
      assert p.tx[id].nonce in acct && acct[p.tx[id].nonce] !in gone;
    }
  }

  // ----- Runs

  datatype PoolOp = Add(t: Tx) | Remove(ids: seq<str>) | Expire(now: int)

  function Apply(p: Pending, op: PoolOp): Pending {
    match op
    case Add(t) => AfterAdd(p, t)
    case Remove(ids) => AfterRemove(p, ids)
    case Expire(now) => AfterExpire(p, now)
  }

  function Run(p: Pending, ops: seq<PoolOp>): Pending {
    if ops == [] then p else Apply(Run(p, ops[..|ops| - 1]), ops[|ops| - 1])
  }

  function Empty(max: int): Pending {
    Pending(max, map[], map[])
  }

  lemma ApplyAgrees(p: Pending, op: PoolOp)
    requires Agrees(p)
    ensures Agrees(Apply(p, op))
  {
    match op
    case Add(t) => AddAgrees(p, t);
    case Remove(ids) => RemoveAgrees(p, ids);
    case Expire(now) => WithoutAgrees(p, ExpiredIds(p, now));
  }

  lemma {:induction false} RunFromAgrees(p: Pending, ops: seq<PoolOp>)
    requires Agrees(p)
    ensures Agrees(Run(p, ops))
  {
    if ops != [] {
      RunFromAgrees(p, ops[..|ops| - 1]);
      ApplyAgrees(Run(p, ops[..|ops| - 1]), ops[|ops| - 1]);
    }
  }

  /** Over every run of additions, removals and expiries the indexes agree and count the same transactions. */
  lemma {:induction false} RunAgrees(max: int, ops: seq<PoolOp>)
    ensures Agrees(Run(Empty(max), ops))
    ensures SumSizes(Run(Empty(max), ops).byAcct) == |Run(Empty(max), ops).tx|
  {
    RunFromAgrees(Empty(max), ops);
    AgreesInverse(Run(Empty(max), ops));
    SizesAddUp(Run(Empty(max), ops).tx, Run(Empty(max), ops).byAcct);
  }

  // ----- Counting

  ghost function SumSizes(byAcct: map<str, Account>): nat {
    if byAcct == map[] then 0
    else
      var a :| a in byAcct;
      |byAcct[a]| + SumSizes(byAcct - {a})
  }

  /** Both maps name the same (sender, nonce, identifier) triples. */
  ghost predicate Inverse(tx: map<str, Tx>, byAcct: map<str, Account>) {
    && (forall id :: id in tx ==> InAccount(byAcct, tx[id].from, tx[id].nonce, id))
    && (forall a, n, id :: InAccount(byAcct, a, n, id) ==> id in tx && tx[id].from == a && tx[id].nonce == n)
  }

  predicate InAccount(byAcct: map<str, Account>, a: str, n: u64, id: str) {
    a in byAcct && n in byAcct[a] && byAcct[a][n] == id
  }

  lemma AgreesInverse(p: Pending)
    requires Agrees(p)
    ensures Inverse(p.tx, p.byAcct)
  {
    forall a, n, id | InAccount(p.byAcct, a, n, id)
      ensures id in p.tx && p.tx[id].from == a && p.tx[id].nonce == n
    {
      assert Slot(p, a, n) == Some(id);
    }
  }

  ghost function SentBy(tx: map<str, Tx>, a: str): set<str> {
    set id | id in tx && tx[id].from == a
  }

  lemma InverseWithoutAccount(tx: map<str, Tx>, byAcct: map<str, Account>, a: str)
    requires Inverse(tx, byAcct)
    ensures Inverse(tx - SentBy(tx, a), byAcct - {a})
  {
    var tx', byAcct' := tx - SentBy(tx, a), byAcct - {a};
    forall id | id in tx'
      ensures InAccount(byAcct', tx'[id].from, tx'[id].nonce, id)
    {
      assert InAccount(byAcct, tx[id].from, tx[id].nonce, id);
    }
    forall b, n, id | InAccount(byAcct', b, n, id)
      ensures id in tx' && tx'[id].from == b && tx'[id].nonce == n
    {
      assert InAccount(byAcct, b, n, id);
    }
  }

  lemma {:induction false} SizesAddUp(tx: map<str, Tx>, byAcct: map<str, Account>)
    requires Inverse(tx, byAcct)
    ensures SumSizes(byAcct) == |tx|
    decreases |byAcct|
  {
    if byAcct == map[] {
      NoTransactions(tx, byAcct);
    } else {
      var a :| a in byAcct && SumSizes(byAcct) == |byAcct[a]| + SumSizes(byAcct - {a});
      var mine := SentBy(tx, a);
      InverseWithoutAccount(tx, byAcct, a);
      SlotsOfAccount(tx, byAcct, a);
      SizesAddUp(tx - mine, byAcct - {a});
      CardinalityWithout(tx, mine);
    }
  }

  lemma NoTransactions(tx: map<str, Tx>, byAcct: map<str, Account>)
    requires Inverse(tx, byAcct) && byAcct == map[]
    ensures |tx| == 0
  {
    assert forall id :: id in tx ==> InAccount(byAcct, tx[id].from, tx[id].nonce, id);
    assert tx.Keys == {};
  }

  lemma CardinalityWithout<V>(m: map<str, V>, gone: set<str>)
    requires gone <= m.Keys
    ensures |m - gone| == |m| - |gone|
  {
    assert (m - gone).Keys == m.Keys - gone;
    assert m.Keys * gone == gone;
  }

  lemma SlotsOfAccount(tx: map<str, Tx>, byAcct: map<str, Account>, a: str)
    requires Inverse(tx, byAcct) && a in byAcct
    ensures |byAcct[a]| == |SentBy(tx, a)|
  {
    var acct, mine := byAcct[a], SentBy(tx, a);
    forall n | n in acct
      ensures acct[n] in mine && tx[acct[n]].nonce == n
    {
      assert InAccount(byAcct, a, n, acct[n]);
    }
    forall id | id in mine
      ensures exists n :: n in acct && acct[n] == id
    {
      assert InAccount(byAcct, tx[id].from, tx[id].nonce, id);
      assert tx[id].nonce in acct;
    }
    InjectiveImage(acct, mine);
  }

  lemma {:induction false} InjectiveImage(acct: Account, image: set<str>)
    requires forall m, n :: m in acct && n in acct && acct[m] == acct[n] ==> m == n
    requires forall n :: n in acct ==> acct[n] in image
    requires forall id :: id in image ==> exists n :: n in acct && acct[n] == id
    ensures |acct| == |image|
    decreases |acct|
  {
    if acct == map[] {
      assert image == {};
    } else {
      var n :| n in acct;
      var rest, rest' := acct - {n}, image - {acct[n]};
      forall id | id in rest'
        ensures exists m :: m in rest && rest[m] == id
      {
        var m :| m in acct && acct[m] == id;
        assert m in rest;
      }
      InjectiveImage(rest, rest');
      assert rest.Keys == acct.Keys - {n};
    }
  }

  // ----- Fees

  /** The slot is occupied in both states, by the same transaction or in the later one by one that pays more. */
  ghost predicate NotUndercut(p: Pending, q: Pending, from: str, nonce: u64) {
    var s, t := Slot(p, from, nonce), Slot(q, from, nonce);
    && s.Some? && t.Some? && s.value in p.tx && t.value in q.tx
    && (p.tx[s.value] == q.tx[t.value] || p.tx[s.value].fee < q.tx[t.value].fee)
  }

  lemma {:induction false} RemoveKeepsTx(p: Pending, ids: seq<str>, id: str)
    requires Agrees(p) && id in AfterRemove(p, ids).tx
    ensures id in p.tx && AfterRemove(p, ids).tx[id] == p.tx[id]
  {
    if ids != [] {
      RemoveAgrees(p, ids[..|ids| - 1]);
      RemoveKeepsTx(p, ids[..|ids| - 1], id);
    }
  }

  lemma SameTxNotUndercut(p: Pending, q: Pending, from: str, nonce: u64)
    requires Agrees(p) && Agrees(q) && Slot(p, from, nonce).Some? && Slot(q, from, nonce).Some?
    requires var id := Slot(q, from, nonce).value; id in p.tx && p.tx[id] == q.tx[id]
    ensures NotUndercut(p, q, from, nonce)
  {
    var id := Slot(q, from, nonce).value;
    SlotIffHeld(p, id, from, nonce);
    SlotIffHeld(q, id, from, nonce);
  }

  lemma AddNotUndercut(p: Pending, t: Tx, from: str, nonce: u64)
    requires Agrees(p) && Agrees(AfterAdd(p, t)) && Slot(p, from, nonce).Some?
    ensures Slot(AfterAdd(p, t), from, nonce).Some? && NotUndercut(p, AfterAdd(p, t), from, nonce)
  {
    var q, u := AfterAdd(p, t), WithId(t);
    var id := Slot(p, from, nonce).value;
    assert Held(p, id, from, nonce);
    if AddFault(p, u).None? {
      var slot, r := Slot(p, u.from, u.nonce), Evicted(p, u);
      assert q == Store(r, u) && Slot(r, from, nonce) == Some(id);
      SlotAfterStore(r, u, from, nonce);
      if slot.Some? {
        assert Held(p, slot.value, u.from, u.nonce);
      }
    }
  }

  lemma {:induction false} StepNotUndercut(p: Pending, op: PoolOp, from: str, nonce: u64)
    requires Agrees(p) && Agrees(Apply(p, op))
    requires Slot(p, from, nonce).Some? && Slot(Apply(p, op), from, nonce).Some?
    ensures NotUndercut(p, Apply(p, op), from, nonce)
  {
    var q := Apply(p, op);
    var id := Slot(q, from, nonce).value;
    assert Held(q, id, from, nonce);
    match op
    case Remove(ids) =>
      RemoveKeepsTx(p, ids, id);
      SameTxNotUndercut(p, q, from, nonce);
    case Expire(now) =>
      SameTxNotUndercut(p, q, from, nonce);
    case Add(t) =>
      AddNotUndercut(p, t, from, nonce);
  }

  /** The states a pool goes through. */
  ghost predicate IsTrace(trace: seq<Pending>, ops: seq<PoolOp>) {
    |trace| == |ops| + 1 && forall i :: 0 <= i < |ops| ==> trace[i + 1] == Apply(trace[i], ops[i])
  }

  lemma {:induction false} TraceAgrees(trace: seq<Pending>, ops: seq<PoolOp>, i: nat)
    requires IsTrace(trace, ops) && Agrees(trace[0]) && i < |trace|
    ensures Agrees(trace[i])
  {
    if i > 0 {
      TraceAgrees(trace, ops, i - 1);
      ApplyAgrees(trace[i - 1], ops[i - 1]);
    }
  }

  lemma NotUndercutTransitive(p: Pending, q: Pending, r: Pending, from: str, nonce: u64)
    requires NotUndercut(p, q, from, nonce) && NotUndercut(q, r, from, nonce)
    ensures NotUndercut(p, r, from, nonce)
  {
  }

  lemma TraceStepNotUndercut(trace: seq<Pending>, ops: seq<PoolOp>, i: nat, from: str, nonce: u64)
    requires IsTrace(trace, ops) && Agrees(trace[0]) && i < |ops|
    requires Slot(trace[i], from, nonce).Some? && Slot(trace[i + 1], from, nonce).Some?
    ensures NotUndercut(trace[i], trace[i + 1], from, nonce)
  {
    TraceAgrees(trace, ops, i);
    ApplyAgrees(trace[i], ops[i]);
    StepNotUndercut(trace[i], ops[i], from, nonce);
  }

  lemma {:induction false} NotUndercutUpTo(trace: seq<Pending>, ops: seq<PoolOp>, i: nat, from: str, nonce: u64)
    requires IsTrace(trace, ops) && Agrees(trace[0]) && i < |trace|
    requires forall j :: 0 <= j < |trace| ==> Slot(trace[j], from, nonce).Some?
    ensures NotUndercut(trace[0], trace[i], from, nonce)
  {
    if i == 0 {
      SlotIffHeld(trace[0], Slot(trace[0], from, nonce).value, from, nonce);
    } else {
      NotUndercutUpTo(trace, ops, i - 1, from, nonce);
      TraceStepNotUndercut(trace, ops, i - 1, from, nonce);
      NotUndercutTransitive(trace[0], trace[i - 1], trace[i], from, nonce);
    }
  }

  /** While a slot stays occupied its fee never falls, and rises strictly whenever its transaction changes. */
  lemma {:induction false} RunNotUndercut(trace: seq<Pending>, ops: seq<PoolOp>, from: str, nonce: u64)
    requires IsTrace(trace, ops) && Agrees(trace[0])
    requires forall i :: 0 <= i < |trace| ==> Slot(trace[i], from, nonce).Some?
    ensures NotUndercut(trace[0], trace[|ops|], from, nonce)
  {
    NotUndercutUpTo(trace, ops, |ops|, from, nonce);
  }

  // ----- Listing

  /** `now` counts seconds. */
  predicate Stale(t: Tx, now: int) {
    t.expiresAt > 0 && t.expiresAt < now
  }

  ghost function Live(tx: map<str, Tx>, ids: set<str>, now: int): set<Tx> {
    set id | id in ids && id in tx && !Stale(tx[id], now) :: tx[id]
  }

  lemma LiveOneMore(tx: map<str, Tx>, ids: set<str>, id: str, now: int)
    requires id in tx && id !in ids
    requires forall i :: i in tx ==> tx[i].id == i
    ensures multiset(Live(tx, ids + {id}, now)) ==
            multiset(Live(tx, ids, now)) + if Stale(tx[id], now) then multiset{} else multiset{tx[id]}
  {
    if Stale(tx[id], now) {
      assert Live(tx, ids + {id}, now) == Live(tx, ids, now);
    } else {
      assert tx[id] !in Live(tx, ids, now);
      assert Live(tx, ids + {id}, now) == Live(tx, ids, now) + {tx[id]};
    }
  }

  ghost predicate FeeDescending(txs: seq<Tx>) {
    forall i, j :: 0 <= i < j < |txs| ==> txs[i].fee >= txs[j].fee
  }

  /** A listing holds each live transaction once, highest fees first; the order among equal fees is left open. */
  ghost predicate IsListing(tx: map<str, Tx>, now: int, txs: seq<Tx>) {
    multiset(txs) == multiset(Live(tx, tx.Keys, now)) && FeeDescending(txs)
  }

  /** What is listed: whatever has no expiry or one not before `now`, both in seconds; higher fees before lower. */
  lemma {:induction false} ListingExact(p: Pending, now: int, txs: seq<Tx>, id: str)
    requires Agrees(p) && IsListing(p.tx, now, txs)
    ensures id in p.tx ==> (p.tx[id] in txs <==> p.tx[id].expiresAt <= 0 || p.tx[id].expiresAt >= now)
    ensures forall i :: 0 <= i < |txs| ==> txs[i].id in p.tx && p.tx[txs[i].id] == txs[i]
    ensures forall i, j :: 0 <= i < j < |txs| ==> txs[i].fee >= txs[j].fee
  {
    forall i | 0 <= i < |txs|
      ensures txs[i].id in p.tx && p.tx[txs[i].id] == txs[i] && !Stale(txs[i], now)
    {
      assert txs[i] in multiset(txs);
      assert txs[i] in Live(p.tx, p.tx.Keys, now);
    }
    if id in p.tx && !Stale(p.tx[id], now) {
      assert p.tx[id] in Live(p.tx, p.tx.Keys, now);
      assert p.tx[id] in multiset(txs);
    }
  }

  lemma ListingHasDistinctIds(p: Pending, now: int, txs: seq<Tx>, i: nat, j: nat)
    requires Agrees(p) && IsListing(p.tx, now, txs) && i < j < |txs|
    ensures txs[i].id != txs[j].id
  {
    assert txs == txs[..j] + [txs[j]] + txs[j + 1..];
    assert txs[i] == txs[..j][i] && txs[i] in multiset(txs[..j]);
    assert multiset(txs)[txs[j]] <= 1;
    assert multiset(txs) == multiset(txs[..j]) + multiset{txs[j]} + multiset(txs[j + 1..]);
    assert txs[i] in multiset(txs) && txs[j] in multiset(txs);
  }

  function InsertAt<T>(s: seq<T>, j: nat, x: T): (r: seq<T>)
    requires j <= |s|
    ensures multiset(r) == multiset(s) + multiset{x}
  {
    assert s == s[..j] + s[j..];
    s[..j] + [x] + s[j..]
  }

  lemma InsertAtKeepsFees(s: seq<Tx>, j: nat, t: Tx)
    requires FeeDescending(s) && j <= |s|
    requires forall k :: 0 <= k < j ==> s[k].fee >= t.fee
    requires j < |s| ==> s[j].fee < t.fee
    ensures FeeDescending(InsertAt(s, j, t))
  {
    var r := InsertAt(s, j, t);
    forall a, b | 0 <= a < b < |r|
      ensures r[a].fee >= r[b].fee
    {
      assert r[a] == if a < j then s[a] else if a == j then t else s[a - 1];
      assert r[b] == if b < j then s[b] else if b == j then t else s[b - 1];
    }
  }

  method InsertByFee(sorted: seq<Tx>, t: Tx) returns (out: seq<Tx>)
    requires FeeDescending(sorted)
    ensures multiset(out) == multiset(sorted) + multiset{t} && FeeDescending(out)
  {
    var j := 0;
    while j < |sorted| && sorted[j].fee >= t.fee
      invariant 0 <= j <= |sorted|
      invariant forall k :: 0 <= k < j ==> sorted[k].fee >= t.fee
    {
      j := j + 1;
    }
    InsertAtKeepsFees(sorted, j, t);
    out := InsertAt(sorted, j, t);
  }

  lemma {:induction false} RemoveDropsNamed(p: Pending, ids: seq<str>)
    ensures AfterRemove(p, ids).tx == map id | id in p.tx && id !in ids :: p.tx[id]
  {
    if ids != [] {
      RemoveDropsNamed(p, ids[..|ids| - 1]);
      assert ids == ids[..|ids| - 1] + [ids[|ids| - 1]];
    }
  }

  lemma ListedIffLive(p: Pending, now: int, txs: seq<Tx>, id: str)
    requires Agrees(p) && IsListing(p.tx, now, txs) && id in p.tx
    ensures (exists i :: 0 <= i < |txs| && txs[i].id == id) <==> !Stale(p.tx[id], now)
  {
    if !Stale(p.tx[id], now) {
      assert p.tx[id] in Live(p.tx, p.tx.Keys, now);
      assert p.tx[id] in multiset(txs);
      var i :| 0 <= i < |txs| && txs[i] == p.tx[id];
    }
    if i :| 0 <= i < |txs| && txs[i].id == id {
      assert txs[i] in multiset(txs);
      assert txs[i] in Live(p.tx, p.tx.Keys, now);
    }
  }

  /** `sort.Slice` by descending fee. */
  method SortByFee(txs: seq<Tx>) returns (out: seq<Tx>)
    ensures multiset(out) == multiset(txs) && FeeDescending(out)
  {
    out := [];
    for i := 0 to |txs|
      invariant multiset(out) == multiset(txs[..i]) && FeeDescending(out)
    {
      assert txs[..i + 1] == txs[..i] + [txs[i]];
      out := InsertByFee(out, txs[i]);
    }
    assert txs[..|txs|] == txs;
  }

  /** The loop of `List`, in whatever order iteration visits the transactions. */
  method CollectLive(tx: map<str, Tx>, now: int) returns (txs: seq<Tx>)
    requires forall id :: id in tx ==> tx[id].id == id
    ensures multiset(txs) == multiset(Live(tx, tx.Keys, now))
  {
    txs := [];
    ghost var done: set<str> := {};
    var rest := tx.Keys;
    while rest != {}
      invariant rest + done == tx.Keys && rest !! done
      invariant multiset(txs) == multiset(Live(tx, done, now))
      decreases |rest|
    {
      var id :| id in rest;
      var t := tx[id];
      LiveOneMore(tx, done, id, now);
      rest, done := rest - {id}, done + {id};
      if t.expiresAt > 0 && t.expiresAt < now {
        continue;
      }
      txs := txs + [t];
    }
    assert done == tx.Keys;
  }

  // ----- The pool object

  class Pool {
    const max: int
    var tx: map<str, Tx>
    var byAcct: map<str, Account>

    ghost function State(): Pending
      reads this
    {
      Pending(max, tx, byAcct)
    }

    constructor (max: int)
      ensures this.max == max && State() == Empty(max)
    {
      this.max, tx, byAcct := max, map[], map[];
    }

    method Add(t0: Tx) returns (err: Option<AddError>)
      requires Agrees(State())
      modifies this
      ensures err == AddFault(old(State()), WithId(t0))
      ensures State() == AfterAdd(old(State()), t0) && Agrees(State())
      ensures err.Some? ==> State() == old(State())
      ensures var u := if t0.id == [] then t0.(id := TxHash(t0)) else t0;
        err.None? <==>
          && |old(tx)| < max && u.id !in old(tx)
          && forall id :: id in old(tx) && old(tx)[id].from == u.from && old(tx)[id].nonce == u.nonce ==>
                            old(tx)[id].fee < u.fee
      ensures var u := if t0.id == [] then t0.(id := TxHash(t0)) else t0;
        err.None? ==> tx == Others(old(tx), u.from, u.nonce)[u.id := u]
    {
      AddAgrees(State(), t0);
      AddExact(State(), t0);
      if |tx| >= max {
        return Some(PoolFull);
      }
      var t := t0;
      if t.id == [] {
        t := t.(id := TxHash(t));
      }
      if t.id in tx {
        return Some(DuplicateId);
      }
      err := Place(t);
    }

    /** The rest of `Add`, for a transaction with a new identifier. */
    method Place(t: Tx) returns (err: Option<AddError>)
      requires SlotsHeld(State()) && |tx| < max && t.id !in tx
      modifies this
      ensures err == AddFault(old(State()), t)
      ensures err.Some? ==> State() == old(State())
      ensures err.None? ==> State() == Store(Evicted(old(State()), t), t)
    {
      ghost var p := State();
      ghost var slot := Slot(p, t.from, t.nonce);
      assert slot.Some? ==> Held(p, slot.value, t.from, t.nonce);
      if t.from !in byAcct {
        byAcct := byAcct[t.from := map[]];
      }
      var acct: Account := byAcct[t.from];
      assert acct == AccountOf(p, t.from) && (t.nonce in acct <==> slot.Some?);
      if t.nonce in acct {
        var replaced := acct[t.nonce];
        if t.fee <= tx[replaced].fee {
          return Some(NonceConflict);
        }
        tx := tx - {replaced};
      }
      tx := tx[t.id := t];
      byAcct := byAcct[t.from := acct[t.nonce := t.id]];
      return None;
    }

    method List(now: int) returns (txs: seq<Tx>)
      requires Agrees(State())
      ensures IsListing(tx, now, txs)
      ensures forall id :: id in tx ==> (tx[id] in txs <==> tx[id].expiresAt <= 0 || tx[id].expiresAt >= now)
    {
      txs := CollectLive(tx, now);
      txs := SortByFee(txs);
      forall id | id in tx
        ensures tx[id] in txs <==> tx[id].expiresAt <= 0 || tx[id].expiresAt >= now
      {
        ListingExact(State(), now, txs, id);
      }
    }

    method Remove(ids: seq<str>)
      requires Agrees(State())
      modifies this
      ensures State() == AfterRemove(old(State()), ids) && Agrees(State())
    {
      for i := 0 to |ids|
        invariant State() == AfterRemove(old(State()), ids[..i])
      {
        RemoveAgrees(old(State()), ids[..i]);
        assert ids[..i + 1][..i] == ids[..i];
        var id := ids[i];
        if id in tx {
          var t := tx[id];
          tx := tx - {id};
          if t.from in byAcct {
            byAcct := byAcct[t.from := byAcct[t.from] - {t.nonce}];
          }
        }
      }
      assert ids[..|ids|] == ids;
      RemoveAgrees(old(State()), ids);
    }

    /** One deletion of `Expire`. */
    method Drop(id: str, ghost p: Pending, ghost gone: set<str>)
      requires Agrees(p) && id in p.tx && id !in gone && State() == Without(p, gone)
      modifies this
      ensures State() == Without(p, gone + {id})
    {
      WithoutOneMore(p, gone, id);
      ghost var q := DropOne(State(), id);
      var t := tx[id];
      tx := tx - {id};
      if t.from in byAcct {
        var acct: Account := byAcct[t.from] - {t.nonce};
        if |acct| == 0 {
          byAcct := byAcct - {t.from};
        } else {
          byAcct := byAcct[t.from := acct];
        }
      }
      assert tx == q.tx && byAcct == q.byAcct;
    }

    /** One round of the loop of `Expire`. */
    method Visit(id: str, now: int, n: nat, ghost p: Pending, ghost gone: set<str>) returns (n': nat)
      requires Agrees(p) && id in p.tx && id !in gone && State() == Without(p, gone)
      modifies this
      ensures n' == n + if id in ExpiredIds(p, now) then 1 else 0
      ensures State() == Without(p, if id in ExpiredIds(p, now) then gone + {id} else gone)
    {
      var t := tx[id];
      n' := n;
      if t.expiresAt > 0 && t.expiresAt * 1_000_000_000 < now {
        Drop(id, p, gone);
        n' := n + 1;
      }
    }

    /** The loop of `Expire`, in whatever order iteration visits the transactions. */
    method ExpireAll(now: int, ghost p: Pending, ghost expired: set<str>) returns (n: nat)
      requires Agrees(p) && State() == p && expired == ExpiredIds(p, now)
      modifies this
      ensures State() == Without(p, expired) && n == |expired|
    {
      WithoutNothing(p);
      n := 0;
      var rest := tx.Keys;
      assert expired - rest == {};
      while rest != {}
        invariant rest <= p.tx.Keys
        invariant State() == Without(p, expired - rest) && n == |expired - rest|
        decreases |rest|
      {
        var id :| id in rest;
        VisitOne(expired, rest, id);
        n := Visit(id, now, n, p, expired - rest);
        rest := rest - {id};
      }
      assert expired - rest == expired;
    }

    method Expire(now: int) returns (n: nat)
      requires Agrees(State())
      modifies this
      ensures State() == AfterExpire(old(State()), now) && Agrees(State())
      ensures n == |ExpiredIds(old(State()), now)|
      ensures tx == map id | id in old(tx) &&
                             (old(tx)[id].expiresAt <= 0 || old(tx)[id].expiresAt * 1_000_000_000 >= now) :: old(tx)[id]
      ensures n == |old(tx)| - |tx|
    {
      ghost var p, expired := State(), ExpiredIds(State(), now);
      WithoutAgrees(p, expired);
      n := ExpireAll(now, p, expired);
      ExpireExact(p, now);
      ExpiredCount(p, now);
    }
  }

  lemma VisitOne(expired: set<str>, rest: set<str>, id: str)
    requires id in rest
    ensures expired - (rest - {id}) == if id in expired then expired - rest + {id} else expired - rest
    ensures |expired - (rest - {id})| == |expired - rest| + if id in expired then 1 else 0
  {
    assert expired - (rest - {id}) == if id in expired then expired - rest + {id} else expired - rest;
  }

  lemma WithoutNothing(p: Pending)
    ensures Without(p, {}) == p
  {
    forall a | a in p.byAcct
      ensures !Emptied(p.byAcct[a], {}) && Survivors(p.byAcct[a], {}) == p.byAcct[a]
    {
      var acct := p.byAcct[a];
      if acct != map[] {
        assert acct.Keys != {};
        var n :| n in acct.Keys;
        assert n in acct && acct[n] !in {};
      }
    }
    assert Pruned(p.byAcct, {}) == p.byAcct;
  }

  /** Deletes one transaction the way `Expire` does. */
  function DropOne(p: Pending, id: str): Pending
    requires id in p.tx
  {
    p.(tx := p.tx - {id}, byAcct := DropSlot(p.byAcct, p.tx[id].from, p.tx[id].nonce))
  }

  function DropSlot(byAcct: map<str, Account>, from: str, nonce: u64): map<str, Account> {
    if from !in byAcct then byAcct
    else
      var acct := byAcct[from] - {nonce};
      if |acct| == 0 then byAcct - {from} else byAcct[from := acct]
  }

  lemma SurvivorsOneMore(acct: Account, gone: set<str>, nonce: u64)
    requires nonce in acct && acct[nonce] !in gone
    requires forall m :: m in acct && m != nonce ==> acct[m] != acct[nonce]
    ensures !Emptied(acct, gone)
    ensures Survivors(acct, gone + {acct[nonce]}) == Survivors(acct, gone) - {nonce}
    ensures Emptied(acct, gone + {acct[nonce]}) <==> |Survivors(acct, gone) - {nonce}| == 0
  {
    var id := acct[nonce];
    var left := Survivors(acct, gone) - {nonce};
    assert forall m :: m in left <==> m in acct && acct[m] !in gone + {id};
    if |left| == 0 {
      assert forall m :: m in acct ==> m !in left;
    } else {
      assert left.Keys != {};
      var m :| m in left.Keys;
      assert m in acct && acct[m] !in gone + {id};
    }
  }

  lemma SurvivorsUntouched(acct: Account, gone: set<str>, id: str)
    requires forall m :: m in acct ==> acct[m] != id
    ensures Survivors(acct, gone + {id}) == Survivors(acct, gone)
    ensures Emptied(acct, gone + {id}) <==> Emptied(acct, gone)
  {
    assert forall m :: m in acct ==> (acct[m] in gone + {id} <==> acct[m] in gone);
  }

  lemma PrunedOneMoreAt(byAcct: map<str, Account>, gone: set<str>, from: str, nonce: u64, id: str, a: str)
    requires InAccount(byAcct, from, nonce, id) && id !in gone
    requires forall b, n :: InAccount(byAcct, b, n, id) ==> b == from && n == nonce
    requires a in byAcct
    ensures from in Pruned(byAcct, gone)
    ensures var q, r := DropSlot(Pruned(byAcct, gone), from, nonce), Pruned(byAcct, gone + {id});
      (a in q <==> a in r) && (a in q ==> q[a] == r[a])
  {
    var acct := byAcct[from];
    forall m | m in acct && m != nonce
      ensures acct[m] != id
    {
      assert !InAccount(byAcct, from, m, id);
    }
    SurvivorsOneMore(acct, gone, nonce);
    if a != from {
      forall m | m in byAcct[a]
        ensures byAcct[a][m] != id
      {
        assert !InAccount(byAcct, a, m, id);
      }
      SurvivorsUntouched(byAcct[a], gone, id);
    }
  }

  lemma PrunedOneMore(byAcct: map<str, Account>, gone: set<str>, from: str, nonce: u64, id: str)
    requires InAccount(byAcct, from, nonce, id) && id !in gone
    requires forall b, n :: InAccount(byAcct, b, n, id) ==> b == from && n == nonce
    ensures DropSlot(Pruned(byAcct, gone), from, nonce) == Pruned(byAcct, gone + {id})
  {
    var q, r := DropSlot(Pruned(byAcct, gone), from, nonce), Pruned(byAcct, gone + {id});
    PrunedOneMoreAt(byAcct, gone, from, nonce, id, from);
    forall a | a in byAcct
      ensures a in q <==> a in r
      ensures a in q ==> q[a] == r[a]
    {
      PrunedOneMoreAt(byAcct, gone, from, nonce, id, a);
    }
    assert q.Keys <= byAcct.Keys && r.Keys <= byAcct.Keys;
  }

  lemma {:induction false} WithoutOneMore(p: Pending, gone: set<str>, id: str)
    requires Agrees(p) && id in p.tx && id !in gone
    ensures id in Without(p, gone).tx && DropOne(Without(p, gone), id) == Without(p, gone + {id})
  {
    AgreesInverse(p);
    PrunedOneMore(p.byAcct, gone, p.tx[id].from, p.tx[id].nonce, id);
    assert (p.tx - gone) - {id} == p.tx - (gone + {id});
  }
}
