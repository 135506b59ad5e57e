/**
  Transactions that do not conflict on their declared keys commute, so every schedule of a block
  that keeps conflicting transactions in order ends in the same state with the same verdicts.
 */
module Serializability {
  import opened Base
  import opened ChainState
  import opened Balances
  import opened Actions
  import opened Blocks
  import opened Schedules

  // ---------- two executions side by side ----------

  ghost predicate SameAt(kv: Store, kv': Store, k: Key) {
    (k in kv <==> k in kv') && (k in kv ==> kv[k] == kv'[k])
  }

  /** The two states hold the same records at the keys of m. */
  ghost predicate AgreeOn(m: map<Key, Perm>, kv: Store, kv': Store) {
    forall k :: k in m ==> SameAt(kv, kv', k)
  }

  /** Two outcomes that look alike from inside m: both succeed or both fail with the same error. */
  ghost predicate Lockstep(m: map<Key, Perm>, e: Exec, e': Exec) {
    && (e.Done? <==> e'.Done?)
    && (e.Fail? ==> e.err == e'.err)
    && AgreeOn(m, e.kv, e'.kv)
  }

  lemma InsertLockstep(env: Env, m: map<Key, Perm>, kv: Store, kv': Store, k: Key, v: Value)
    requires KindMatches(k, v) && AgreeOn(m, kv, kv')
    ensures Lockstep(m, InsertExec(env, Only(m), kv, k, v), InsertExec(env, Only(m), kv', k, v))
  {
    if k in m {
      assert SameAt(kv, kv', k);
    }
  }

  lemma SubLockstep(env: Env, m: map<Key, Perm>, kv: Store, kv': Store, a: Address, amount: uint64)
    requires AgreeOn(m, kv, kv')
    ensures Lockstep(m, SubBalanceExec(env, Only(m), kv, a, amount), SubBalanceExec(env, Only(m), kv', a, amount))
  {
    if BalanceKey(a) in m {
      assert SameAt(kv, kv', BalanceKey(a));
    }
  }

  lemma AddLockstep(env: Env, m: map<Key, Perm>, kv: Store, kv': Store, a: Address, amount: uint64)
    requires AgreeOn(m, kv, kv')
    ensures Lockstep(m, AddBalanceExec(env, Only(m), kv, a, amount, true),
                     AddBalanceExec(env, Only(m), kv', a, amount, true))
  {
    if BalanceKey(a) in m {
      assert SameAt(kv, kv', BalanceKey(a));
    }
  }

  lemma AuthorizationLockstep(
    m: map<Key, Perm>, kv: Store, kv': Store, actor: Address, registered: seq<Namespace>, ns: Namespace)
    requires AgreeOn(m, kv, kv')
    ensures AuthorizationError(Only(m), kv, actor, registered, ns)
         == AuthorizationError(Only(m), kv', actor, registered, ns)
  {
    if InfoKey(ns) in m {
      assert SameAt(kv, kv', InfoKey(ns));
    }
  }

  lemma StoreRegistrationLockstep(
    env: Env, m: map<Key, Perm>, kv: Store, kv': Store, info: RollupInfo, registered: seq<Namespace>)
    requires AgreeOn(m, kv, kv')
    ensures Lockstep(m, StoreRegistration(env, Only(m), kv, info, registered),
                        StoreRegistration(env, Only(m), kv', info, registered))
  {
    var k, v := InfoKey(info.namespace), Info(info);
    InsertLockstep(env, m, kv, kv', k, v);
    var s, s' := InsertExec(env, Only(m), kv, k, v), InsertExec(env, Only(m), kv', k, v);
    if s.Done? {
      InsertLockstep(env, m, s.kv, s'.kv, RegistryKey, Registry(registered));
    }
  }

  lemma CreateLockstep(
    env: Env, m: map<Key, Perm>, kv: Store, kv': Store, h: uint64, actor: Address, info: RollupInfo)
    requires AgreeOn(m, kv, kv') && RegistryKey in m
    ensures Lockstep(m, CreateExec(env, Only(m), kv, h, actor, info), CreateExec(env, Only(m), kv', h, actor, info))
  {
    assert SameAt(kv, kv', RegistryKey);
    var registered := RegistryOf(kv);
    AuthorizationLockstep(m, kv, kv', actor, registered, info.namespace);
    StoreRegistrationLockstep(env, m, kv, kv', info, registered);
    StoreRegistrationLockstep(env, m, kv, kv', info, registered + [info.namespace]);
  }

  /** UPDATE and EXIT read the same stored info, so they rewrite the action alike. */
  lemma RewriteLockstep(
    env: Env, m: map<Key, Perm>, kv: Store, kv': Store, h: uint64, actor: Address, info: RollupInfo)
    requires AgreeOn(m, kv, kv') && RegistryKey in m
    ensures Lockstep(m, UpdateExec(env, Only(m), kv, actor, info).exec, UpdateExec(env, Only(m), kv', actor, info).exec)
    ensures Lockstep(m, ExitExec(env, Only(m), kv, h, actor, info).exec,
                     ExitExec(env, Only(m), kv', h, actor, info).exec)
  {
    assert SameAt(kv, kv', RegistryKey);
    var registered := RegistryOf(kv);
    AuthorizationLockstep(m, kv, kv', actor, registered, info.namespace);
    if AuthorizationError(Only(m), kv, actor, registered, info.namespace).None? {
      assert SameAt(kv, kv', InfoKey(info.namespace));
      var stored := InfoOf(kv, info.namespace).value;
      StoreRegistrationLockstep(
        env, m, kv, kv', info.(exitEpoch := stored.exitEpoch, startEpoch := stored.startEpoch), registered);
      StoreRegistrationLockstep(env, m, kv, kv', info.(startEpoch := stored.startEpoch), registered);
    }
  }

  lemma RegisterLockstep(
    env: Env, m: map<Key, Perm>, kv: Store, kv': Store, h: uint64, actor: Address, r: Registration)
    requires AgreeOn(m, kv, kv')
    ensures Lockstep(m, RegisterExec(env, Only(m), kv, h, actor, r).exec,
                     RegisterExec(env, Only(m), kv', h, actor, r).exec)
  {
    if RegistryKey in m {
      if r.opCode == CREATE_ROLLUP {
        CreateLockstep(env, m, kv, kv', h, actor, r.info);
      } else if r.opCode == UPDATE_ROLLUP {
        RewriteLockstep(env, m, kv, kv', h, actor, r.info);
      } else if r.opCode == EXIT_ROLLUP {
        RewriteLockstep(env, m, kv, kv', h, actor, r.info);
      }
    }
  }

  lemma AuctionLockstep(
    env: Env, m: map<Key, Perm>, kv: Store, kv': Store, h: uint64, actor: Address, a: AuctionInfo,
    pk: seq<byte>, sig: seq<byte>)
    requires AgreeOn(m, kv, kv')
    ensures Lockstep(m, AuctionExec(env, Only(m), kv, h, actor, a, pk, sig),
                     AuctionExec(env, Only(m), kv', h, actor, a, pk, sig))
  {
    var fund := ArcadiaFundAddress();
    SubLockstep(env, m, kv, kv', a.builder, a.bidPrice);
    var s := SubBalanceExec(env, Only(m), kv, a.builder, a.bidPrice);
    var s' := SubBalanceExec(env, Only(m), kv', a.builder, a.bidPrice);
    if s.Done? {
      AddLockstep(env, m, s.kv, s'.kv, fund, a.bidPrice);
      var t := AddBalanceExec(env, Only(m), s.kv, fund, a.bidPrice, true);
      var t' := AddBalanceExec(env, Only(m), s'.kv, fund, a.bidPrice, true);
      if t.Done? {
        InsertLockstep(env, m, t.kv, t'.kv, BidKey(a.epochNumber), BidRecord(Bid(a.bidPrice, pk, sig)));
      }
    }
  }

  lemma TransferLockstep(
    env: Env, m: map<Key, Perm>, kv: Store, kv': Store, actor: Address, to: Address, value: uint64, memo: seq<byte>)
    requires AgreeOn(m, kv, kv')
    ensures Lockstep(m, TransferExec(env, Only(m), kv, actor, to, value, memo),
                     TransferExec(env, Only(m), kv', actor, to, value, memo))
  {
    SubLockstep(env, m, kv, kv', actor, value);
    var s, s' := SubBalanceExec(env, Only(m), kv, actor, value), SubBalanceExec(env, Only(m), kv', actor, value);
    if s.Done? {
      AddLockstep(env, m, s.kv, s'.kv, to, value);
    }
  }

  lemma ExitListLockstep(env: Env, m: map<Key, Perm>, kv: Store, kv': Store, info: EpochInfo, epoch: uint64, op: int)
    requires AgreeOn(m, kv, kv')
    ensures Lockstep(m, ExitListExec(env, Only(m), kv, info, epoch, op),
                     ExitListExec(env, Only(m), kv', info, epoch, op))
  {
    if ExitsKey(epoch) in m {
      assert SameAt(kv, kv', ExitsKey(epoch));
      var exits := ExitsOf(kv, epoch);
      var i := FirstExit(exits, info.namespace);
      if op == CREATE_EXIT {
        InsertLockstep(env, m, kv, kv', ExitsKey(epoch), Exits(exits + [info]));
      } else if i < |exits| {
        InsertLockstep(env, m, kv, kv', ExitsKey(epoch), Exits(exits[..i] + exits[i + 1..]));
      }
    }
  }

  lemma EpochExitLockstep(
    env: Env, m: map<Key, Perm>, kv: Store, kv': Store, actor: Address, info: EpochInfo, epoch: uint64, op: int)
    requires AgreeOn(m, kv, kv')
    ensures Lockstep(m, EpochExitExec(env, Only(m), kv, actor, info, epoch, op),
                     EpochExitExec(env, Only(m), kv', actor, info, epoch, op))
  {
    ExitListLockstep(env, m, kv, kv', info, epoch, op);
    if RegistryKey in m {
      assert SameAt(kv, kv', RegistryKey);
      AuthorizationLockstep(m, kv, kv', actor, RegistryOf(kv), info.namespace);
    }
  }

  /** What an action does inside its scope depends only on the records inside its scope. */
  lemma ActionLockstep(env: Env, m: map<Key, Perm>, kv: Store, kv': Store, h: uint64, actor: Address, a: Action)
    requires AgreeOn(m, kv, kv')
    ensures Lockstep(m, ActionExec(env, Only(m), kv, h, actor, a), ActionExec(env, Only(m), kv', h, actor, a))
  {
    match a
    case Transfer(to, value, memo) => TransferLockstep(env, m, kv, kv', actor, to, value, memo);
    case Auction(info, pk, sig) => AuctionLockstep(env, m, kv, kv', h, actor, info, pk, sig);
    case Register(r) => RegisterLockstep(env, m, kv, kv', h, actor, r);
    case Exit(info, epoch, op) => EpochExitLockstep(env, m, kv, kv', actor, info, epoch, op);
    case SequencerMsg =>
  }

  lemma {:induction false} ActionsLockstep(
    env: Env, m: map<Key, Perm>, kv: Store, kv': Store, h: uint64, actor: Address, actions: seq<Action>)
    requires AgreeOn(m, kv, kv')
    ensures Lockstep(m, ActionsExec(env, Only(m), kv, h, actor, actions),
                     ActionsExec(env, Only(m), kv', h, actor, actions))
    decreases actions
  {
    if actions != [] {
      ActionLockstep(env, m, kv, kv', h, actor, actions[0]);
      var s := ActionExec(env, Only(m), kv, h, actor, actions[0]);
      var s' := ActionExec(env, Only(m), kv', h, actor, actions[0]);
      if s.Done? {
        ActionsLockstep(env, m, s.kv, s'.kv, h, actor, actions[1..]);
      }
    }
  }

  // ---------- writes stay inside the writable keys ----------

  ghost predicate Confined(sc: Scope, kv: Store, kv': Store) {
    forall k :: !sc.MayWrite(k) ==> SameAt(kv, kv', k)
  }

  lemma ActionConfined(env: Env, sc: Scope, kv: Store, h: uint64, actor: Address, a: Action)
    ensures Confined(sc, kv, ActionExec(env, sc, kv, h, actor, a).kv)
  {
    match a
    case Transfer(_, _, _) =>
    case Auction(info, pk, sig) => AuctionConfined(env, sc, kv, h, actor, info, pk, sig);
    case Register(r) => RegisterConfined(env, sc, kv, h, actor, r);
    case Exit(_, _, _) =>
    case SequencerMsg =>
  }

  lemma AuctionConfined(
    env: Env, sc: Scope, kv: Store, h: uint64, actor: Address, a: AuctionInfo, pk: seq<byte>, sig: seq<byte>)
    ensures Confined(sc, kv, AuctionExec(env, sc, kv, h, actor, a, pk, sig).kv)
  {
    var paid := SubBalanceExec(env, sc, kv, a.builder, a.bidPrice);
    assert Confined(sc, kv, paid.kv);
    if paid.Done? {
      var funded := AddBalanceExec(env, sc, paid.kv, ArcadiaFundAddress(), a.bidPrice, true);
      assert Confined(sc, kv, funded.kv);
    }
  }

  lemma StoreRegistrationConfined(env: Env, sc: Scope, kv: Store, info: RollupInfo, registered: seq<Namespace>)
    ensures Confined(sc, kv, StoreRegistration(env, sc, kv, info, registered).kv)
  {
  }

  lemma RegisterConfined(env: Env, sc: Scope, kv: Store, h: uint64, actor: Address, r: Registration)
    ensures Confined(sc, kv, RegisterExec(env, sc, kv, h, actor, r).exec.kv)
  {
    var registered, info := RegistryOf(kv), RegisterExec(env, sc, kv, h, actor, r).info;
    StoreRegistrationConfined(env, sc, kv, info, registered);
    StoreRegistrationConfined(env, sc, kv, info, registered + [info.namespace]);
  }

  lemma {:induction false} ActionsConfined(
    env: Env, sc: Scope, kv: Store, h: uint64, actor: Address, actions: seq<Action>)
    ensures Confined(sc, kv, ActionsExec(env, sc, kv, h, actor, actions).kv)
    decreases actions
  {
    if actions != [] {
      ActionConfined(env, sc, kv, h, actor, actions[0]);
      var s := ActionExec(env, sc, kv, h, actor, actions[0]);
      if s.Done? {
        ActionsConfined(env, sc, s.kv, h, actor, actions[1..]);
      }
    }
  }

  /** The frame of an action: only the keys its `StateKeys` declare for writing may change. */
  lemma ActionFrame(env: Env, kv: Store, h: uint64, actor: Address, a: Action)
    ensures Confined(Only(StateKeys(actor, a)), kv, ActionExec(env, Everything, kv, h, actor, a).kv)
  {
    DeclaredKeysSuffice(env, Only(StateKeys(actor, a)), kv, h, actor, a);
    ActionConfined(env, Only(StateKeys(actor, a)), kv, h, actor, a);
  }

  /** Paying a fee changes only the sponsor's balance. */
  lemma FeeFrame(env: Env, kv: Store, sponsor: Address, amount: uint64)
    ensures Confined(Only(SponsorStateKeys(sponsor)), kv, DeductExec(env, Everything, kv, sponsor, amount).kv)
  {
  }

  /** A transaction changes only keys it declared for writing. */
  lemma TxConfined(env: Env, kv: Store, h: uint64, tx: Tx)
    ensures Confined(Only(TxKeys(tx)), kv, ApplyTx(env, kv, h, tx).kv)
  {
    var sc := Only(TxKeys(tx));
    var paid := DeductExec(env, sc, kv, tx.sponsor, tx.fee);
    if paid.Done? {
      ActionsConfined(env, sc, paid.kv, h, tx.actor, tx.actions);
    }
  }

  /** A transaction's verdict and what it leaves at its declared keys depend only on those keys. */
  lemma TxLockstep(env: Env, kv: Store, kv': Store, h: uint64, tx: Tx)
    requires AgreeOn(TxKeys(tx), kv, kv')
    ensures ApplyTx(env, kv, h, tx).verdict == ApplyTx(env, kv', h, tx).verdict
    ensures AgreeOn(TxKeys(tx), ApplyTx(env, kv, h, tx).kv, ApplyTx(env, kv', h, tx).kv)
  {
    var m := TxKeys(tx);
    SubLockstep(env, m, kv, kv', tx.sponsor, tx.fee);
    var s, s' := DeductExec(env, Only(m), kv, tx.sponsor, tx.fee), DeductExec(env, Only(m), kv', tx.sponsor, tx.fee);
    if s.Done? {
      ActionsLockstep(env, m, s.kv, s'.kv, h, tx.actor, tx.actions);
    }
  }

  // ---------- commuting two transactions ----------

  /** They share a declared key that one of them may write. */
  ghost predicate Conflict(t: Tx, u: Tx) {
    exists k :: k in TxKeys(t) && k in TxKeys(u) && (TxKeys(t)[k].write || TxKeys(u)[k].write)
  }

  /** A transaction of one action, whose signer pays the fee. */
  predicate IsSingle(t: Tx) {
    t.sponsor == t.actor && |t.actions| == 1
  }

  lemma SingleKeys(t: Tx, k: Key)
    requires IsSingle(t)
    ensures var m, keys := TxKeys(t), StateKeys(t.actor, t.actions[0]);
      && (k in m <==> k == BalanceKey(t.actor) || k in keys)
      && (k in m ==> (m[k].write <==> k == BalanceKey(t.actor) || (k in keys && keys[k].write)))
  {
    var keys := StateKeys(t.actor, t.actions[0]);
    TxKeysAreDeclared(t, k);
    DeclaresFirst(t.actor, t.actions, k, ANY);
    DeclaresFirst(t.actor, t.actions, k, WRITES);
    assert t.actions[1..] == [];
  }

  lemma TransferTxKeys(t: Tx, k: Key)
    requires IsSingle(t) && t.actions[0].Transfer?
    ensures k in TxKeys(t) <==> k == BalanceKey(t.actor) || k == BalanceKey(t.actions[0].to)
    ensures k in TxKeys(t) ==> TxKeys(t)[k].write
  {
    SingleKeys(t, k);
  }

  /** Two transfers conflict exactly when they share an account. */
  lemma TransfersConflictIff(t: Tx, u: Tx)
    requires IsSingle(t) && IsSingle(u) && t.actions[0].Transfer? && u.actions[0].Transfer?
    ensures Conflict(t, u) <==> t.actor in {u.actor, u.actions[0].to} || t.actions[0].to in {u.actor, u.actions[0].to}
  {
    var from, to := BalanceKey(t.actor), BalanceKey(t.actions[0].to);
    TransferTxKeys(t, from);
    TransferTxKeys(u, from);
    TransferTxKeys(t, to);
    TransferTxKeys(u, to);
    if k :| k in TxKeys(t) && k in TxKeys(u) && (TxKeys(t)[k].write || TxKeys(u)[k].write) {
      TransferTxKeys(t, k);
      TransferTxKeys(u, k);
    }
  }

  lemma ExitTxKeys(t: Tx, k: Key)
    requires IsSingle(t) && t.actions[0].Exit?
    ensures var written := k == BalanceKey(t.actor) || k == ExitsKey(t.actions[0].epoch);
      && (k in TxKeys(t) <==> written || k == RegistryKey || k == InfoKey(t.actions[0].exit.namespace))
      && (k in TxKeys(t) ==> (TxKeys(t)[k].write <==> written))
  {
    SingleKeys(t, k);
  }

  /**
    Two epoch exits conflict exactly when they have the same signer or are for the same epoch: that
    both read the registry, or the same rollup, is no conflict.
   */
  lemma ExitsConflictIff(t: Tx, u: Tx)
    requires IsSingle(t) && IsSingle(u) && t.actions[0].Exit? && u.actions[0].Exit?
    ensures Conflict(t, u) <==> t.actor == u.actor || t.actions[0].epoch == u.actions[0].epoch
  {
    var balance, exits := BalanceKey(t.actor), ExitsKey(t.actions[0].epoch);
    ExitTxKeys(t, balance);
    ExitTxKeys(u, balance);
    ExitTxKeys(t, exits);
    ExitTxKeys(u, exits);
    if k :| k in TxKeys(t) && k in TxKeys(u) && (TxKeys(t)[k].write || TxKeys(u)[k].write) {
      ExitTxKeys(t, k);
      ExitTxKeys(u, k);
    }
  }

  /** Running t first does not change what u sees. */
  lemma Undisturbed(env: Env, kv: Store, h: uint64, t: Tx, u: Tx)
    requires !Conflict(t, u)
    ensures AgreeOn(TxKeys(u), kv, ApplyTx(env, kv, h, t).kv)
  {
    TxConfined(env, kv, h, t);
  }

  /** Two transactions without a conflict give the same verdicts and the same state in either order. */
  lemma NonConflictingCommute(env: Env, kv: Store, h: uint64, t: Tx, u: Tx)
    requires !Conflict(t, u)
    ensures ApplyTx(env, ApplyTx(env, kv, h, t).kv, h, u).verdict == ApplyTx(env, kv, h, u).verdict
    ensures ApplyTx(env, ApplyTx(env, kv, h, u).kv, h, t).verdict == ApplyTx(env, kv, h, t).verdict
    ensures ApplyTx(env, ApplyTx(env, kv, h, t).kv, h, u).kv == ApplyTx(env, ApplyTx(env, kv, h, u).kv, h, t).kv
  {
    var s, s' := ApplyTx(env, kv, h, t).kv, ApplyTx(env, kv, h, u).kv;
    Undisturbed(env, kv, h, t, u);
    Undisturbed(env, kv, h, u, t);
    TxLockstep(env, kv, s, h, u);
    TxLockstep(env, kv, s', h, t);
    TxConfined(env, kv, h, t);
    TxConfined(env, kv, h, u);
    TxConfined(env, s, h, u);
    TxConfined(env, s', h, t);
    var tu, ut := ApplyTx(env, s, h, u).kv, ApplyTx(env, s', h, t).kv;
    forall k
      ensures SameAt(tu, ut, k)
    {
      if k in TxKeys(u) && TxKeys(u)[k].write {
        assert SameAt(s', tu, k);
        assert SameAt(s', ut, k);
      } else if k in TxKeys(t) && TxKeys(t)[k].write {
        assert SameAt(s, tu, k);
        assert SameAt(s, ut, k);
      } else {
        assert SameAt(kv, s, k) && SameAt(s, tu, k);
        assert SameAt(kv, s', k) && SameAt(s', ut, k);
      }
    }
    assert tu == ut by {
      assert forall k :: k in tu ==> SameAt(tu, ut, k);
      assert forall k :: k in ut ==> SameAt(tu, ut, k);
    }
  }

  // ---------- schedules of a block ----------

  /** One transaction of a block as a step: the new state and the verdict. */
  function TxStep(env: Env, h: uint64): (Store, Tx) -> (Store, Verdict) {
    (kv: Store, tx: Tx) => (ApplyTx(env, kv, h, tx).kv, ApplyTx(env, kv, h, tx).verdict)
  }

  /** Running the transactions in sequence is running the block. */
  lemma {:induction false} RunIsBlock(env: Env, kv: Store, h: uint64, txs: seq<Tx>)
    ensures Run(TxStep(env, h), kv, txs).0 == ApplyTxs(env, kv, h, txs)
    decreases txs
  {
    if txs != [] {
      RunIsBlock(env, ApplyTx(env, kv, h, txs[0]).kv, h, txs[1..]);
    }
  }

  lemma NonConflictingStepsCommute(env: Env, h: uint64, t: Tx, u: Tx)
    requires !Conflict(t, u)
    ensures Commute(TxStep(env, h), t, u)
  {
    forall kv: Store {
      NonConflictingCommute(env, kv, h, t, u);
    }
  }

  /** The schedule holds the block's transactions, conflicting ones in the block's order. */
  ghost predicate KeepsConflictsInOrder(block: seq<Tx>, schedule: seq<Tx>) {
    && SameMembers(block, schedule)
    && Distinct(block) && Distinct(schedule)
    && forall i, j :: 0 <= i < j < |block| && Conflict(block[i], block[j]) ==>
         Before(schedule, block[i], block[j])
  }

  /**
    Every schedule of a block's transactions that keeps conflicting ones in order, conflicts being
    read off the declared keys, ends in the block's state with the block's verdicts.
   */
  lemma Serializable(env: Env, kv: Store, h: uint64, block: seq<Tx>, schedule: seq<Tx>)
    requires KeepsConflictsInOrder(block, schedule)
    ensures Run(TxStep(env, h), kv, schedule) == Run(TxStep(env, h), kv, block)
    ensures ApplyTxs(env, kv, h, schedule) == ApplyTxs(env, kv, h, block)
  {
    var step := TxStep(env, h);
    forall i, j | 0 <= i < j < |block| && !Commute(step, block[i], block[j])
      ensures Before(schedule, block[i], block[j])
    {
      if !Conflict(block[i], block[j]) {
        NonConflictingStepsCommute(env, h, block[i], block[j]);
      }
    }
    SameOutcome(step, kv, block, schedule);
    RunIsBlock(env, kv, h, block);
    RunIsBlock(env, kv, h, schedule);
  }
}
