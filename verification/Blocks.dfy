/**
  Transactions, blocks and chains of blocks. A transaction pays its fee, then runs its actions
  against the keys it declared; if an action fails, what the actions wrote is undone and the fee is
  kept. A chain is flattened to the events that were committed, so that a property of whole runs can
  be proved one event at a time.
 */
module Blocks {
  import opened Base
  import opened ChainState
  import opened Balances
  import opened Actions

  datatype Tx = Tx(id: ID, actor: Address, sponsor: Address, fee: uint64, actions: seq<Action>)
  datatype Block = Block(height: Height, txs: seq<Tx>)

  datatype Verdict = Success | Failed(err: Error) | Invalid
  datatype TxResult = TxResult(kv: Store, verdict: Verdict)

  // ---------- declared keys ----------

  function Join(p: Perm, q: Perm): Perm {
    Perm(p.read || q.read, p.write || q.write, p.allocate || q.allocate)
  }

  function JoinKeys(m: map<Key, Perm>, n: map<Key, Perm>): map<Key, Perm> {
    map k | k in m.Keys + n.Keys ::
      if k !in n then m[k] else if k !in m then n[k] else Join(m[k], n[k])
  }

  function ActionsKeys(actor: Address, actions: seq<Action>): map<Key, Perm> {
    if actions == [] then map[]
    else JoinKeys(StateKeys(actor, actions[0]), ActionsKeys(actor, actions[1..]))
  }

  /** Every key a transaction declares: its sponsor's and those of all its actions. */
  function TxKeys(tx: Tx): map<Key, Perm> {
    JoinKeys(SponsorStateKeys(tx.sponsor), ActionsKeys(tx.actor, tx.actions))
  }

  /** Some action of the list declares k with a permission that satisfies p. */
  ghost predicate Declares(actor: Address, actions: seq<Action>, k: Key, p: Perm -> bool) {
    exists i :: 0 <= i < |actions| && k in StateKeys(actor, actions[i]) && p(StateKeys(actor, actions[i])[k])
  }

  lemma DeclaresFirst(actor: Address, actions: seq<Action>, k: Key, p: Perm -> bool)
    requires actions != []
    ensures Declares(actor, actions, k, p) <==>
      || (k in StateKeys(actor, actions[0]) && p(StateKeys(actor, actions[0])[k]))
      || Declares(actor, actions[1..], k, p)
  {
    if Declares(actor, actions, k, p) {
      var i :| 0 <= i < |actions| && k in StateKeys(actor, actions[i]) && p(StateKeys(actor, actions[i])[k]);
      assert i > 0 ==> actions[1..][i - 1] == actions[i];
    }
    if Declares(actor, actions[1..], k, p) {
      var i :| 0 <= i < |actions[1..]| && k in StateKeys(actor, actions[1..][i])
               && p(StateKeys(actor, actions[1..][i])[k]);
      assert actions[i + 1] == actions[1..][i];
    }
  }

  const ANY: Perm -> bool := (p: Perm) => true
  const READS: Perm -> bool := (p: Perm) => p.read
  const WRITES: Perm -> bool := (p: Perm) => p.write
  const ALLOCATES: Perm -> bool := (p: Perm) => p.allocate

  lemma {:induction false} ActionsKeysAreDeclared(actor: Address, actions: seq<Action>, k: Key)
    ensures var m := ActionsKeys(actor, actions);
      && (k in m <==> Declares(actor, actions, k, ANY))
      && (k in m && m[k].read <==> Declares(actor, actions, k, READS))
      && (k in m && m[k].write <==> Declares(actor, actions, k, WRITES))
      && (k in m && m[k].allocate <==> Declares(actor, actions, k, ALLOCATES))
  {
    if actions != [] {
      DeclaresFirst(actor, actions, k, ANY);
      DeclaresFirst(actor, actions, k, READS);
      DeclaresFirst(actor, actions, k, WRITES);
      DeclaresFirst(actor, actions, k, ALLOCATES);
      ActionsKeysAreDeclared(actor, actions[1..], k);
    }
  }

  /**
    A transaction declares a permission exactly when one of its actions does, or it is for reading or
    writing the sponsor's balance.
   */
  lemma TxKeysAreDeclared(tx: Tx, k: Key)
    ensures var m, sponsors := TxKeys(tx), k == BalanceKey(tx.sponsor);
      && (k in m <==> sponsors || Declares(tx.actor, tx.actions, k, ANY))
      && (k in m && m[k].read <==> sponsors || Declares(tx.actor, tx.actions, k, READS))
      && (k in m && m[k].write <==> sponsors || Declares(tx.actor, tx.actions, k, WRITES))
      && (k in m && m[k].allocate <==> Declares(tx.actor, tx.actions, k, ALLOCATES))
  {
    ActionsKeysAreDeclared(tx.actor, tx.actions, k);
  }

  // ---------- execution ----------

  function DeductExec(env: Env, sc: Scope, kv: Store, sponsor: Address, amount: uint64): Exec {
    SubBalanceExec(env, sc, kv, sponsor, amount)
  }

  function ActionsExec(env: Env, sc: Scope, kv: Store, h: uint64, actor: Address, actions: seq<Action>): Exec
    decreases actions
  {
    if actions == [] then Done(kv)
    else
      var s :- ActionExec(env, sc, kv, h, actor, actions[0]);
      ActionsExec(env, sc, s, h, actor, actions[1..])
  }

  /** A transaction run against a scope: an unpayable fee makes it invalid and changes nothing. */
  function ScopedTx(env: Env, sc: Scope, kv: Store, h: uint64, tx: Tx): TxResult {
    match DeductExec(env, sc, kv, tx.sponsor, tx.fee)
    case Fail(_, _) => TxResult(kv, Invalid)
    case Done(paid) =>
      match ActionsExec(env, sc, paid, h, tx.actor, tx.actions)
      case Fail(_, err) => TxResult(paid, Failed(err))
      case Done(s) => TxResult(s, Success)
  }

  function ApplyTx(env: Env, kv: Store, h: uint64, tx: Tx): TxResult {
    ScopedTx(env, Only(TxKeys(tx)), kv, h, tx)
  }

  function ApplyTxs(env: Env, kv: Store, h: uint64, txs: seq<Tx>): Store
    decreases txs
  {
    if txs == [] then kv else ApplyTxs(env, ApplyTx(env, kv, h, txs[0]).kv, h, txs[1..])
  }

  function ApplyChain(env: Env, kv: Store, blocks: seq<Block>): Store
    decreases blocks
  {
    if blocks == [] then kv
    else ApplyChain(env, ApplyTxs(env, kv, blocks[0].height, blocks[0].txs), blocks[1..])
  }

  ghost predicate Increasing(blocks: seq<Block>) {
    forall i, j :: 0 <= i < j < |blocks| ==> blocks[i].height < blocks[j].height
  }

  // ---------- committed events ----------

  datatype Event =
    | Fee(sponsor: Address, amount: uint64)
    | Act(height: Height, actor: Address, action: Action)

  function EventExec(env: Env, kv: Store, e: Event): Exec {
    match e
    case Fee(sponsor, amount) => DeductExec(env, Everything, kv, sponsor, amount)
    case Act(h, actor, a) => ActionExec(env, Everything, kv, h, actor, a)
  }

  function Replay(env: Env, kv: Store, events: seq<Event>): Exec
    decreases events
  {
    if events == [] then Done(kv)
    else
      var s :- EventExec(env, kv, events[0]);
      Replay(env, s, events[1..])
  }

  function ActEvents(h: Height, actor: Address, actions: seq<Action>): (events: seq<Event>)
    ensures |events| == |actions|
    ensures forall i :: 0 <= i < |events| ==> events[i] == Act(h, actor, actions[i])
  {
    seq(|actions|, i requires 0 <= i < |actions| => Act(h, actor, actions[i]))
  }

  /** The events a transaction leaves behind. */
  function TxEvents(env: Env, kv: Store, h: Height, tx: Tx): seq<Event> {
    match ApplyTx(env, kv, h, tx).verdict
    case Invalid => []
    case Failed(_) => [Fee(tx.sponsor, tx.fee)]
    case Success => [Fee(tx.sponsor, tx.fee)] + ActEvents(h, tx.actor, tx.actions)
  }

  function TxsEvents(env: Env, kv: Store, h: Height, txs: seq<Tx>): seq<Event>
    decreases txs
  {
    if txs == [] then []
    else TxEvents(env, kv, h, txs[0]) + TxsEvents(env, ApplyTx(env, kv, h, txs[0]).kv, h, txs[1..])
  }

  function ChainEvents(env: Env, kv: Store, blocks: seq<Block>): seq<Event>
    decreases blocks
  {
    if blocks == [] then []
    else
      var b := blocks[0];
      TxsEvents(env, kv, b.height, b.txs) + ChainEvents(env, ApplyTxs(env, kv, b.height, b.txs), blocks[1..])
  }

  // ---------- the declared keys suffice ----------

  /** Scope sc grants at least the permissions of m. */
  ghost predicate Covers(sc: Scope, m: map<Key, Perm>) {
    forall k :: k in m ==>
      && (m[k].read ==> sc.MayRead(k))
      && (m[k].write ==> sc.MayWrite(k))
      && (m[k].allocate ==> sc.MayAllocate(k))
  }

  lemma TransferKeysSuffice(env: Env, sc: Scope, kv: Store, h: uint64, actor: Address, a: Action)
    requires a.Transfer? && Covers(sc, StateKeys(actor, a))
    ensures ActionExec(env, sc, kv, h, actor, a) == ActionExec(env, Everything, kv, h, actor, a)
  {
    var m := StateKeys(actor, a);
    assert BalanceKey(actor) in m && BalanceKey(a.to) in m;
  }

  lemma AuctionKeysSuffice(env: Env, sc: Scope, kv: Store, h: uint64, actor: Address, a: Action)
    requires a.Auction? && Covers(sc, StateKeys(actor, a))
    ensures ActionExec(env, sc, kv, h, actor, a) == ActionExec(env, Everything, kv, h, actor, a)
  {
    var m := StateKeys(actor, a);
    var builder, fund := a.auction.builder, ArcadiaFundAddress();
    assert BalanceKey(builder) in m && BalanceKey(fund) in m && BidKey(a.auction.epochNumber) in m;
    var paid := SubBalanceExec(env, sc, kv, builder, a.auction.bidPrice);
    assert paid == SubBalanceExec(env, Everything, kv, builder, a.auction.bidPrice);
    if paid.Done? {
      var funded := AddBalanceExec(env, sc, paid.kv, fund, a.auction.bidPrice, true);
      assert funded == AddBalanceExec(env, Everything, paid.kv, fund, a.auction.bidPrice, true);
    }
  }

  lemma RegisterKeysSuffice(env: Env, sc: Scope, kv: Store, h: uint64, actor: Address, r: Registration)
    requires Covers(sc, StateKeys(actor, Register(r)))
    ensures RegisterExec(env, sc, kv, h, actor, r) == RegisterExec(env, Everything, kv, h, actor, r)
  {
    var m := StateKeys(actor, Register(r));
    assert InfoKey(r.namespace) in m && RegistryKey in m;
  }

  lemma ExitKeysSuffice(env: Env, sc: Scope, kv: Store, h: uint64, actor: Address, a: Action)
    requires a.Exit? && Covers(sc, StateKeys(actor, a))
    ensures ActionExec(env, sc, kv, h, actor, a) == ActionExec(env, Everything, kv, h, actor, a)
  {
    var m := StateKeys(actor, a);
    assert ExitsKey(a.epoch) in m && InfoKey(a.exit.namespace) in m && RegistryKey in m;
  }

  /**
    An action that was granted what its `StateKeys` declare behaves as if it had every permission:
    the declaration leaves out nothing that `Execute` reads, writes or creates.
   */
  lemma DeclaredKeysSuffice(env: Env, sc: Scope, kv: Store, h: uint64, actor: Address, a: Action)
    requires Covers(sc, StateKeys(actor, a))
    ensures ActionExec(env, sc, kv, h, actor, a) == ActionExec(env, Everything, kv, h, actor, a)
  {
    match a
    case Transfer(_, _, _) => TransferKeysSuffice(env, sc, kv, h, actor, a);
    case Auction(_, _, _) => AuctionKeysSuffice(env, sc, kv, h, actor, a);
    case Register(r) => RegisterKeysSuffice(env, sc, kv, h, actor, r);
    case Exit(_, _, _) => ExitKeysSuffice(env, sc, kv, h, actor, a);
    case SequencerMsg =>
  }

  /** Likewise the sponsor's keys, for the fee. */
  lemma SponsorKeysSuffice(env: Env, sc: Scope, kv: Store, sponsor: Address, amount: uint64)
    requires Covers(sc, SponsorStateKeys(sponsor))
    ensures DeductExec(env, sc, kv, sponsor, amount) == DeductExec(env, Everything, kv, sponsor, amount)
  {
    assert BalanceKey(sponsor) in SponsorStateKeys(sponsor);
  }

  lemma {:induction false} ActionsKeysSuffice(
    env: Env, sc: Scope, kv: Store, h: uint64, actor: Address, actions: seq<Action>)
    requires Covers(sc, ActionsKeys(actor, actions))
    ensures ActionsExec(env, sc, kv, h, actor, actions) == ActionsExec(env, Everything, kv, h, actor, actions)
    decreases actions
  {
    if actions != [] {
      var first, rest := StateKeys(actor, actions[0]), ActionsKeys(actor, actions[1..]);
      JoinCovers(sc, first, rest);
      DeclaredKeysSuffice(env, sc, kv, h, actor, actions[0]);
      var r := ActionExec(env, sc, kv, h, actor, actions[0]);
      if r.Done? {
        ActionsKeysSuffice(env, sc, r.kv, h, actor, actions[1..]);
      }
    }
  }

  lemma JoinCovers(sc: Scope, m: map<Key, Perm>, n: map<Key, Perm>)
    requires Covers(sc, JoinKeys(m, n))
    ensures Covers(sc, m) && Covers(sc, n)
  {
    var j := JoinKeys(m, n);
    assert forall k :: k in m ==> k in j;
    assert forall k :: k in n ==> k in j;
  }

  /** A transaction confined to the keys it declares gets the verdict and the state it would get without confinement. */
  lemma ConfinementIsInvisible(env: Env, kv: Store, h: uint64, tx: Tx)
    ensures ApplyTx(env, kv, h, tx) == ScopedTx(env, Everything, kv, h, tx)
  {
    var sc := Only(TxKeys(tx));
    JoinCovers(sc, SponsorStateKeys(tx.sponsor), ActionsKeys(tx.actor, tx.actions));
    SponsorKeysSuffice(env, sc, kv, tx.sponsor, tx.fee);
    var paid := DeductExec(env, sc, kv, tx.sponsor, tx.fee);
    if paid.Done? {
      ActionsKeysSuffice(env, sc, paid.kv, h, tx.actor, tx.actions);
    }
  }

  // ---------- a run is the replay of its committed events ----------

  lemma {:induction false} ReplayConcat(env: Env, kv: Store, es: seq<Event>, fs: seq<Event>)
    requires Replay(env, kv, es).Done?
    ensures Replay(env, kv, es + fs) == Replay(env, Replay(env, kv, es).kv, fs)
    decreases es
  {
    if es == [] {
      assert es + fs == fs;
    } else {
      assert (es + fs)[1..] == es[1..] + fs;
      ReplayConcat(env, EventExec(env, kv, es[0]).kv, es[1..], fs);
    }
  }

  lemma {:induction false} ReplayActs(env: Env, kv: Store, h: Height, actor: Address, actions: seq<Action>)
    ensures Replay(env, kv, ActEvents(h, actor, actions)) == ActionsExec(env, Everything, kv, h, actor, actions)
    decreases actions
  {
    if actions != [] {
      var s := ActionExec(env, Everything, kv, h, actor, actions[0]).kv;
      assert ActEvents(h, actor, actions)[1..] == ActEvents(h, actor, actions[1..]);
      ReplayActs(env, s, h, actor, actions[1..]);
    }
  }

  lemma TxIsReplay(env: Env, kv: Store, h: Height, tx: Tx)
    ensures Replay(env, kv, TxEvents(env, kv, h, tx)) == Done(ApplyTx(env, kv, h, tx).kv)
  {
    ConfinementIsInvisible(env, kv, h, tx);
    var r := ApplyTx(env, kv, h, tx);
    if r.verdict != Invalid {
      var fee := Fee(tx.sponsor, tx.fee);
      var paid := EventExec(env, kv, fee).kv;
      assert Replay(env, paid, []) == Done(paid);
      assert Replay(env, kv, [fee]) == Done(paid);
      if r.verdict.Success? {
        ReplayActs(env, paid, h, tx.actor, tx.actions);
        ReplayConcat(env, kv, [fee], ActEvents(h, tx.actor, tx.actions));
      }
    }
  }

  /**
    The outcome of a transaction: invalid and without effect exactly when its sponsor cannot cover the
    fee, successful exactly when all its actions succeed one after the other, and otherwise failed
    with the first error, the fee being all that it leaves behind.
   */
  lemma TxOutcome(env: Env, kv: Store, h: Height, tx: Tx)
    ensures var r, fee := ApplyTx(env, kv, h, tx), Fee(tx.sponsor, tx.fee);
            var all := Replay(env, kv, [fee] + ActEvents(h, tx.actor, tx.actions));
      && (r.verdict == Invalid <==> BalanceOf(kv, tx.sponsor) < tx.fee)
      && (r.verdict == Invalid ==> r.kv == kv)
      && (r.verdict == Success <==> all.Done?)
      && (r.verdict == Success ==> r.kv == all.kv)
      && (r.verdict.Failed? ==> r.verdict.err == all.err && Replay(env, kv, [fee]) == Done(r.kv))
  {
    ConfinementIsInvisible(env, kv, h, tx);
    var fee, acts := Fee(tx.sponsor, tx.fee), ActEvents(h, tx.actor, tx.actions);
    assert ([fee] + acts)[1..] == acts;
    var paid := EventExec(env, kv, fee);
    if paid.Done? {
      assert Replay(env, paid.kv, []) == Done(paid.kv);
      assert Replay(env, kv, [fee]) == Done(paid.kv);
      ReplayActs(env, paid.kv, h, tx.actor, tx.actions);
    }
  }

  /** Messages for rollups do nothing to the state: a transaction of nothing else succeeds once its fee is covered. */
  lemma MessagesOnlyPay(env: Env, kv: Store, h: Height, tx: Tx)
    requires forall i :: 0 <= i < |tx.actions| ==> tx.actions[i] == SequencerMsg
    ensures ApplyTx(env, kv, h, tx).verdict == Success <==> tx.fee <= BalanceOf(kv, tx.sponsor)
    ensures ApplyTx(env, kv, h, tx).verdict == Success ==>
      Replay(env, kv, [Fee(tx.sponsor, tx.fee)]) == Done(ApplyTx(env, kv, h, tx).kv)
    ensures TxKeys(tx) == SponsorStateKeys(tx.sponsor)
  {
    MessagesDeclareNothing(tx.actor, tx.actions);
    ConfinementIsInvisible(env, kv, h, tx);
    var paid := EventExec(env, kv, Fee(tx.sponsor, tx.fee));
    if paid.Done? {
      MessagesChangeNothing(env, paid.kv, h, tx.actor, tx.actions);
      assert Replay(env, paid.kv, []) == Done(paid.kv);
    }
  }

  lemma {:induction false} MessagesDeclareNothing(actor: Address, actions: seq<Action>)
    requires forall i :: 0 <= i < |actions| ==> actions[i] == SequencerMsg
    ensures ActionsKeys(actor, actions) == map[]
  {
    if actions != [] {
      MessagesDeclareNothing(actor, actions[1..]);
    }
  }

  lemma {:induction false} MessagesChangeNothing(env: Env, kv: Store, h: Height, actor: Address, actions: seq<Action>)
    requires forall i :: 0 <= i < |actions| ==> actions[i] == SequencerMsg
    ensures ActionsExec(env, Everything, kv, h, actor, actions) == Done(kv)
    decreases actions
  {
    if actions != [] {
      MessagesChangeNothing(env, kv, h, actor, actions[1..]);
    }
  }

  /** Transactions run in order, each on what those before it left. */
  lemma {:induction false} TxsConcat(env: Env, kv: Store, h: uint64, ts: seq<Tx>, us: seq<Tx>)
    ensures ApplyTxs(env, kv, h, ts + us) == ApplyTxs(env, ApplyTxs(env, kv, h, ts), h, us)
    decreases ts
  {
    if ts == [] {
      assert ts + us == us;
    } else {
      assert (ts + us)[1..] == ts[1..] + us;
      TxsConcat(env, ApplyTx(env, kv, h, ts[0]).kv, h, ts[1..], us);
    }
  }

  lemma OneTx(env: Env, kv: Store, h: uint64, tx: Tx)
    ensures ApplyTxs(env, kv, h, [tx]) == ApplyTx(env, kv, h, tx).kv
  {
    var s := ApplyTx(env, kv, h, tx).kv;
    assert [tx][1..] == [] && ApplyTxs(env, s, h, []) == s;
  }

  lemma {:induction false} TxsAreReplay(env: Env, kv: Store, h: Height, txs: seq<Tx>)
    ensures Replay(env, kv, TxsEvents(env, kv, h, txs)) == Done(ApplyTxs(env, kv, h, txs))
    decreases txs
  {
    if txs != [] {
      TxIsReplay(env, kv, h, txs[0]);
      var s := ApplyTx(env, kv, h, txs[0]).kv;
      TxsAreReplay(env, s, h, txs[1..]);
      ReplayConcat(env, kv, TxEvents(env, kv, h, txs[0]), TxsEvents(env, s, h, txs[1..]));
    }
  }

  /**
    Whatever transactions failed or were invalid on the way, the state a chain reaches is the one
    that its committed events alone produce, each of them succeeding.
   */
  lemma {:induction false} ChainIsReplay(env: Env, kv: Store, blocks: seq<Block>)
    ensures Replay(env, kv, ChainEvents(env, kv, blocks)) == Done(ApplyChain(env, kv, blocks))
    decreases blocks
  {
    if blocks != [] {
      var b := blocks[0];
      TxsAreReplay(env, kv, b.height, b.txs);
      var s := ApplyTxs(env, kv, b.height, b.txs);
      ChainIsReplay(env, s, blocks[1..]);
      ReplayConcat(env, kv, TxsEvents(env, kv, b.height, b.txs), ChainEvents(env, s, blocks[1..]));
    }
  }

  // ---------- short runs ----------

  /** A block of one transaction, whose signer pays the fee and takes one action. */
  function Single(h: Height, id: ID, signer: Address, fee: uint64, a: Action): Block {
    Block(h, [Tx(id, signer, signer, fee, [a])])
  }

  lemma OneBlock(env: Env, kv: Store, b: Block)
    ensures ApplyChain(env, kv, [b]) == ApplyTxs(env, kv, b.height, b.txs)
  {
    var s := ApplyTxs(env, kv, b.height, b.txs);
    assert [b][1..] == [] && ApplyChain(env, s, []) == s;
  }

  lemma SingleRuns(env: Env, kv: Store, h: Height, id: ID, signer: Address, fee: uint64, a: Action)
    requires fee <= BalanceOf(kv, signer)
    ensures var paid := EventExec(env, kv, Fee(signer, fee));
      && paid.Done?
      && (ActionExec(env, Everything, paid.kv, h, signer, a).Done? ==>
           ApplyChain(env, kv, [Single(h, id, signer, fee, a)]) == ActionExec(env, Everything, paid.kv, h, signer, a).kv)
  {
    var block := Single(h, id, signer, fee, a);
    ConfinementIsInvisible(env, kv, h, block.txs[0]);
    OneBlock(env, kv, block);
    OneTx(env, kv, h, block.txs[0]);
    assert [a][1..] == [];
    var paid := EventExec(env, kv, Fee(signer, fee)).kv;
    var r := ActionExec(env, Everything, paid, h, signer, a);
    assert r.Done? ==> ActionsExec(env, Everything, r.kv, h, signer, []) == r;
  }

  lemma {:induction false} ChainConcat(env: Env, kv: Store, bs: seq<Block>, cs: seq<Block>)
    ensures ApplyChain(env, kv, bs + cs) == ApplyChain(env, ApplyChain(env, kv, bs), cs)
    decreases bs
  {
    if bs == [] {
      assert bs + cs == cs;
    } else {
      assert (bs + cs)[1..] == bs[1..] + cs;
      ChainConcat(env, ApplyTxs(env, kv, bs[0].height, bs[0].txs), bs[1..], cs);
    }
  }

  // ---------- the heights of committed actions ----------

  lemma {:induction false} TxsEventHeight(env: Env, kv: Store, h: Height, txs: seq<Tx>)
    ensures forall e :: e in TxsEvents(env, kv, h, txs) && e.Act? ==> e.height == h
    decreases txs
  {
    if txs != [] {
      TxsEventHeight(env, ApplyTx(env, kv, h, txs[0]).kv, h, txs[1..]);
    }
  }

  /** Every committed action carries the height of a block of the chain. */
  lemma {:induction false} ChainEventHeight(env: Env, kv: Store, blocks: seq<Block>)
    ensures forall e :: e in ChainEvents(env, kv, blocks) && e.Act? ==>
      exists i :: 0 <= i < |blocks| && blocks[i].height == e.height
    decreases blocks
  {
    if blocks != [] {
      var b := blocks[0];
      TxsEventHeight(env, kv, b.height, b.txs);
      ChainEventHeight(env, ApplyTxs(env, kv, b.height, b.txs), blocks[1..]);
      forall e | e in ChainEvents(env, kv, blocks) && e.Act?
        ensures exists i :: 0 <= i < |blocks| && blocks[i].height == e.height
      {
        if e in TxsEvents(env, kv, b.height, b.txs) {
          assert blocks[0].height == e.height;
        } else {
          var i :| 0 <= i < |blocks[1..]| && blocks[1..][i].height == e.height;
          assert blocks[i + 1].height == e.height;
        }
      }
    }
  }
}
