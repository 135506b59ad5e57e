/**
  The list of participating rollups of an epoch: the registered rollups that have opted out neither
  entirely nor for that epoch. When it is final, exactly which actions still change it, and runs
  from genesis in which it changes although the documentation promises that it no longer does.
 */
module Participants {
  import opened Base
  import opened ChainState
  import opened Actions
  import opened Blocks
  import opened Rollups
  import opened EpochExits
  import opened Reachable

  /** Whether the rollup is on the list of epoch e. */
  ghost predicate TakesPart(kv: Store, ns: Namespace, e: uint64) {
    Participates(kv, ns, e) && ns !in ExitSet(kv, e)
  }

  ghost predicate SameListsUpTo(kv: Store, kv': Store, last: int) {
    forall ns, e: uint64 :: e <= last ==> (TakesPart(kv, ns, e) <==> TakesPart(kv', ns, e))
  }

  // ---------- one action ----------

  /** A committed epoch exit moves its namespace in or out of the exits of its epoch, and touches nothing else. */
  lemma ExitEffect(env: Env, kv: Store, actor: Address, info: EpochInfo, epoch: uint64, op: int)
    requires ExitsInvariant(kv)
    requires EpochExitExec(env, Everything, kv, actor, info, epoch, op).Done?
    ensures var kv', ns := EpochExitExec(env, Everything, kv, actor, info, epoch, op).kv, info.namespace;
      && (forall e :: e != epoch ==> ExitSet(kv', e) == ExitSet(kv, e))
      && (ns in ExitSet(kv, epoch) <==> ns !in ExitSet(kv', epoch))
      && (forall other :: other != ns ==> (other in ExitSet(kv, epoch) <==> other in ExitSet(kv', epoch)))
      && (forall other, e :: Participates(kv', other, e) <==> Participates(kv, other, e))
      && InfoOf(kv, ns).Some? && ns in RegistryOf(kv)
  {
    assert GoodExits(ExitsOf(kv, epoch), epoch, RegistryOf(kv));
    if op == CREATE_EXIT {
      CreateInserts(env, kv, actor, info, epoch);
    } else {
      DeleteRemoves(env, kv, actor, info, epoch);
    }
  }

  /**
    An epoch exit committed in epoch c, created or deleted, leaves the lists of all epochs up to c+1
    as they were exactly when it is for a later epoch or for one the rollup is not registered for.
   */
  lemma FrozenIffExitInTime(env: Env, kv: Store, c: int, actor: Address, info: EpochInfo, epoch: uint64, op: int)
    requires RegistryInvariant(env, kv) && ExitsInvariant(kv)
    requires EpochExitExec(env, Everything, kv, actor, info, epoch, op).Done?
    ensures InfoOf(kv, info.namespace).Some?
    ensures SameListsUpTo(kv, EpochExitExec(env, Everything, kv, actor, info, epoch, op).kv, c + 1)
        <==> epoch >= c + 2 || !InfoOf(kv, info.namespace).value.ValidAtEpoch(epoch)
  {
    var kv', ns := EpochExitExec(env, Everything, kv, actor, info, epoch, op).kv, info.namespace;
    ExitEffect(env, kv, actor, info, epoch, op);
    if epoch <= c + 1 && Participates(kv, ns, epoch) {
      assert TakesPart(kv, ns, epoch) != TakesPart(kv', ns, epoch);
    }
  }

  /**
    A registration committed in epoch c leaves the lists of all epochs up to c+1 as they were exactly
    when its rollup is out of each of those epochs that it disturbs.
   */
  lemma FrozenIffNotDisturbed(env: Env, kv: Store, h: Height, actor: Address, r: Registration)
    requires RegistryInvariant(env, kv)
    requires RegisterExec(env, Everything, kv, h, actor, r).exec.Done?
    ensures SameListsUpTo(kv, RegisterExec(env, Everything, kv, h, actor, r).exec.kv, Epoch(h, env) + 1)
        <==> forall e: uint64 :: Disturbs(kv, Epoch(h, env), r, e) ==> r.namespace in ExitSet(kv, e)
  {
    var c, kv' := Epoch(h, env), RegisterExec(env, Everything, kv, h, actor, r).exec.kv;
    RegisterEffect(env, kv, h, actor, r);
    forall ns, e: uint64 | e <= c + 1
      ensures TakesPart(kv, ns, e) != TakesPart(kv', ns, e) <==>
        ns == r.namespace && Disturbs(kv, c, r, e) && ns !in ExitSet(kv, e)
    {
      assert ExitsOf(kv', e) == ExitsOf(kv, e);
      if ns == r.namespace {
        RegistrationDisturbs(env, kv, h, actor, r, e);
      } else {
        assert ns in RegistryOf(kv') <==> ns in RegistryOf(kv);
      }
    }
    if e: uint64 :| Disturbs(kv, c, r, e) && r.namespace !in ExitSet(kv, e) {
      assert TakesPart(kv, r.namespace, e) != TakesPart(kv', r.namespace, e);
    }
  }

  /** What can be checked before an action of epoch c to know that it leaves the lists of all epochs up to c+1 alone. */
  ghost predicate KeepsLists(env: Env, kv: Store, h: Height, a: Action) {
    match a
    case Register(r) =>
      forall e: uint64 :: Disturbs(kv, Epoch(h, env), r, e) ==> r.namespace in ExitSet(kv, e)
    case Exit(info, epoch, _) =>
      epoch >= Epoch(h, env) + 2 || InfoOf(kv, info.namespace).None?
      || !InfoOf(kv, info.namespace).value.ValidAtEpoch(epoch)
    case _ => true
  }

  lemma OthersKeepLists(env: Env, kv: Store, e: Event, last: int)
    requires e.Act? ==> !e.action.Register? && !e.action.Exit?
    ensures SameListsUpTo(kv, EventExec(env, kv, e).kv, last)
  {
    var kv' := EventExec(env, kv, e).kv;
    OthersKeepRollups(env, kv, e);
    forall epoch: uint64
      ensures ExitsOf(kv', epoch) == ExitsOf(kv, epoch)
    {
      OthersKeepExits(env, kv, e, epoch);
    }
  }

  /**
    Any action committed in epoch c leaves the lists of all epochs up to c+1 as they were exactly when
    it passes that check.
   */
  lemma FrozenIffKeepsLists(env: Env, kv: Store, h: Height, actor: Address, a: Action)
    requires RegistryInvariant(env, kv) && ExitsInvariant(kv)
    requires ActionExec(env, Everything, kv, h, actor, a).Done?
    ensures SameListsUpTo(kv, ActionExec(env, Everything, kv, h, actor, a).kv, Epoch(h, env) + 1)
        <==> KeepsLists(env, kv, h, a)
  {
    match a
    case Register(r) => FrozenIffNotDisturbed(env, kv, h, actor, r);
    case Exit(info, epoch, op) => FrozenIffExitInTime(env, kv, Epoch(h, env), actor, info, epoch, op);
    case _ => OthersKeepLists(env, kv, Act(h, actor, a), Epoch(h, env) + 1);
  }

  // ---------- whole runs ----------

  /** Every action committed in the run passes the check in the state it meets. */
  ghost predicate ListsKept(env: Env, kv: Store, events: seq<Event>)
    decreases events
  {
    events == [] ||
    (&& (events[0].Act? ==> KeepsLists(env, kv, events[0].height, events[0].action))
     && ListsKept(env, EventExec(env, kv, events[0]).kv, events[1..]))
  }

  /** All actions of the run fall in epoch c or later. */
  ghost predicate NotBeforeEpoch(env: Env, events: seq<Event>, c: int) {
    forall i :: 0 <= i < |events| && events[i].Act? ==> c <= Epoch(events[i].height, env)
  }

  lemma {:induction false} ReplayFreezes(env: Env, kv: Store, events: seq<Event>, epoch: uint64)
    requires RegistryInvariant(env, kv) && ExitsInvariant(kv) && Replay(env, kv, events).Done?
    requires NotBeforeEpoch(env, events, epoch - 1) && ListsKept(env, kv, events)
    ensures forall ns :: TakesPart(Replay(env, kv, events).kv, ns, epoch) <==> TakesPart(kv, ns, epoch)
    decreases events
  {
    if events != [] {
      var e := events[0];
      var s := EventExec(env, kv, e).kv;
      EventKeepsInvariant(env, kv, e);
      EventKeepsExits(env, kv, e);
      assert forall i :: 0 <= i < |events[1..]| ==> events[1..][i] == events[i + 1];
      ReplayFreezes(env, s, events[1..], epoch);
      if e.Act? {
        FrozenIffKeepsLists(env, kv, e.height, e.actor, e.action);
        assert SameListsUpTo(kv, s, Epoch(e.height, env) + 1);
      } else {
        OthersKeepLists(env, kv, e, epoch);
      }
    }
  }

  /** Once epoch K-2 is over, blocks whose actions all pass the check leave the list of epoch K unchanged. */
  lemma {:induction false} ParticipantsFinal(env: Env, kv: Store, blocks: seq<Block>, epoch: uint64)
    requires RegistryInvariant(env, kv) && ExitsInvariant(kv)
    requires forall i :: 0 <= i < |blocks| ==> epoch - 2 < Epoch(blocks[i].height, env)
    requires ListsKept(env, kv, ChainEvents(env, kv, blocks))
    ensures forall ns :: TakesPart(ApplyChain(env, kv, blocks), ns, epoch) <==> TakesPart(kv, ns, epoch)
  {
    var events := ChainEvents(env, kv, blocks);
    ChainIsReplay(env, kv, blocks);
    ChainEventHeight(env, kv, blocks);
    assert forall i :: 0 <= i < |events| ==> events[i] in events;
    ReplayFreezes(env, kv, events, epoch);
  }

  /**
    Whatever else is in the blocks, a rollup whose authority signs nothing for it keeps its place on or
    off every list.
   */
  lemma ListCustody(env: Env, kv: Store, blocks: seq<Block>, ns: Namespace, epoch: uint64)
    requires RegistryInvariant(env, kv) && ExitsInvariant(kv) && InfoOf(kv, ns).Some?
    requires !SignsFor(ChainEvents(env, kv, blocks), InfoOf(kv, ns).value.authority, ns)
    requires !SignsExitFor(ChainEvents(env, kv, blocks), InfoOf(kv, ns).value.authority, ns)
    ensures TakesPart(ApplyChain(env, kv, blocks), ns, epoch) <==> TakesPart(kv, ns, epoch)
  {
    Custody(env, kv, blocks, ns);
    ExitCustody(env, kv, blocks, ns, epoch);
    ChainKeepsInvariant(env, kv, blocks);
  }

  // ---------- runs from genesis in which a final list changes ----------

  /** The states agree on the registry, on the rollup's info and on the exits of epoch e. */
  predicate SameRollup(kv: Store, kv': Store, ns: Namespace, e: uint64) {
    RegistryOf(kv) == RegistryOf(kv') && InfoOf(kv, ns) == InfoOf(kv', ns) && ExitsOf(kv, e) == ExitsOf(kv', e)
  }

  lemma FeeKeepsRollup(env: Env, kv: Store, signer: Address, fee: uint64, ns: Namespace, e: uint64)
    requires fee <= BalanceOf(kv, signer)
    ensures var paid := EventExec(env, kv, Fee(signer, fee)).kv;
      SameRollup(kv, paid, ns, e) && BalanceOf(paid, signer) == BalanceOf(kv, signer) - fee
  {
  }

  lemma RegisterElsewhere(env: Env, kv: Store, h: Height, actor: Address, r: Registration, e: uint64)
    requires RegisterExec(env, Everything, kv, h, actor, r).exec.Done?
    ensures var s := RegisterExec(env, Everything, kv, h, actor, r).exec.kv;
      ExitsOf(s, e) == ExitsOf(kv, e) && BalanceOf(s, actor) == BalanceOf(kv, actor)
  {
  }

  lemma RegisterLikewise(env: Env, kv: Store, kv': Store, h: Height, actor: Address, r: Registration, e: uint64)
    requires SameRollup(kv, kv', r.namespace, e) && RegisterExec(env, Everything, kv, h, actor, r).exec.Done?
    ensures RegisterExec(env, Everything, kv', h, actor, r).exec.Done?
    ensures RegisterExec(env, Everything, kv', h, actor, r).info == RegisterExec(env, Everything, kv, h, actor, r).info
  {
  }

  lemma RegisterSeesRollup(env: Env, kv: Store, kv': Store, h: Height, actor: Address, r: Registration, e: uint64)
    requires SameRollup(kv, kv', r.namespace, e) && RegisterExec(env, Everything, kv, h, actor, r).exec.Done?
    ensures var s := RegisterExec(env, Everything, kv, h, actor, r).exec;
            var s' := RegisterExec(env, Everything, kv', h, actor, r).exec;
      s'.Done? && SameRollup(s.kv, s'.kv, r.namespace, e) && BalanceOf(s'.kv, actor) == BalanceOf(kv', actor)
  {
    RegisterLikewise(env, kv, kv', h, actor, r, e);
    RegisterEffect(env, kv, h, actor, r);
    RegisterEffect(env, kv', h, actor, r);
    RegisterElsewhere(env, kv, h, actor, r, e);
    RegisterElsewhere(env, kv', h, actor, r, e);
  }

  lemma ExitSeesRollup(env: Env, kv: Store, kv': Store, actor: Address, info: EpochInfo, epoch: uint64, op: int)
    requires SameRollup(kv, kv', info.namespace, epoch)
    requires EpochExitExec(env, Everything, kv, actor, info, epoch, op).Done?
    ensures var s := EpochExitExec(env, Everything, kv, actor, info, epoch, op);
            var s' := EpochExitExec(env, Everything, kv', actor, info, epoch, op);
      s'.Done? && SameRollup(s.kv, s'.kv, info.namespace, epoch) && BalanceOf(s'.kv, actor) == BalanceOf(kv', actor)
  {
  }

  /** A block of one registration does to the rollup what the registration does, and costs the signer the fee. */
  lemma RegisterRuns(env: Env, kv: Store, h: Height, id: ID, signer: Address, fee: uint64, r: Registration, e: uint64)
    requires fee <= BalanceOf(kv, signer) && RegisterExec(env, Everything, kv, h, signer, r).exec.Done?
    ensures var kv' := ApplyChain(env, kv, [Single(h, id, signer, fee, Register(r))]);
      && BalanceOf(kv', signer) == BalanceOf(kv, signer) - fee
      && SameRollup(RegisterExec(env, Everything, kv, h, signer, r).exec.kv, kv', r.namespace, e)
  {
    SingleRuns(env, kv, h, id, signer, fee, Register(r));
    FeeKeepsRollup(env, kv, signer, fee, r.namespace, e);
    RegisterSeesRollup(env, kv, EventExec(env, kv, Fee(signer, fee)).kv, h, signer, r, e);
  }

  /** Likewise a block of one epoch exit. */
  lemma ExitRuns(env: Env, kv: Store, h: Height, id: ID, signer: Address, fee: uint64, info: EpochInfo, op: int)
    requires fee <= BalanceOf(kv, signer) && EpochExitExec(env, Everything, kv, signer, info, info.epoch, op).Done?
    ensures var kv' := ApplyChain(env, kv, [Single(h, id, signer, fee, Exit(info, info.epoch, op))]);
      && BalanceOf(kv', signer) == BalanceOf(kv, signer) - fee
      && SameRollup(EpochExitExec(env, Everything, kv, signer, info, info.epoch, op).kv, kv', info.namespace, info.epoch)
  {
    SingleRuns(env, kv, h, id, signer, fee, Exit(info, info.epoch, op));
    FeeKeepsRollup(env, kv, signer, fee, info.namespace, info.epoch);
    ExitSeesRollup(env, kv, EventExec(env, kv, Fee(signer, fee)).kv, signer, info, info.epoch, op);
  }

  /** The operator of a rollup, who signs and pays for everything in the runs below. */
  datatype Operator = Operator(signer: Address, namespace: Namespace, fee: uint64, ids: Height -> ID)
  {
    function Profile(start: uint64, exit: uint64): RollupInfo {
      RollupInfo(namespace, signer, signer, [], start, exit)
    }

    function RegisterAt(h: Height, op: int, start: uint64, exit: uint64): Block {
      Single(h, ids(h), signer, fee, Register(Registration(Profile(start, exit), namespace, op)))
    }

    /** An exit from epoch 4, created or deleted. */
    function ExitAt(h: Height, op: int): Block {
      Single(h, ids(h), signer, fee, Exit(EpochInfo(4, namespace), 4, op))
    }

    /** The operator can pay for three transactions on a fresh chain with epochs of 6 blocks, and its records fit. */
    ghost predicate Ready(env: Env, kv: Store) {
      && IsGenesis(kv) && env.epochLength == 6
      && 3 * fee <= BalanceOf(kv, signer)
      && |namespace| <= env.maxNamespaceLen
      && env.fits(RegistryKey, Registry([namespace]))
      && (forall start: uint64, exit: uint64 :: env.fits(InfoKey(namespace), Info(Profile(start, exit))))
      && ListFits(env, 4, [EpochInfo(4, namespace)]) && ListFits(env, 4, [])
    }

    /** The chain has the operator's rollup only, with these epochs and these exits from epoch 4. */
    predicate Stands(kv: Store, start: uint64, exit: uint64, exits: seq<EpochInfo>) {
      RegistryOf(kv) == [namespace] && InfoOf(kv, namespace) == Some(Profile(start, exit)) && ExitsOf(kv, 4) == exits
    }
  }

  /** In epoch 0 the operator registers the rollup from epoch 2 on. */
  lemma Registered(env: Env, kv: Store, o: Operator)
    requires o.Ready(env, kv)
    ensures var s := ApplyChain(env, kv, [o.RegisterAt(1, CREATE_ROLLUP, 2, 0)]);
      o.Stands(s, 2, 0, []) && 2 * o.fee <= BalanceOf(s, o.signer)
  {
    var r := Registration(o.Profile(2, 0), o.namespace, CREATE_ROLLUP);
    assert [] + [o.namespace] == [o.namespace];
    RegisterRuns(env, kv, 1, o.ids(1), o.signer, o.fee, r, 4);
  }

  /** A registration of the standing rollup by its operator, if it is in time, sets its epochs. */
  lemma RegistrationSets(
    env: Env, kv: Store, o: Operator, h: Height, op: int, start: uint64, exit: uint64, was: uint64)
    requires o.Stands(kv, 2, was, []) && |o.namespace| <= env.maxNamespaceLen
    requires env.fits(RegistryKey, Registry([o.namespace]))
    requires env.fits(InfoKey(o.namespace), Info(o.Profile(start, exit)))
    requires if op == CREATE_ROLLUP then Epoch(h, env) + 2 <= start && exit == 0
             else op == EXIT_ROLLUP && start == 2 && Epoch(h, env) + 2 <= exit
    ensures var registration := Registration(o.Profile(start, exit), o.namespace, op);
            var r := RegisterExec(env, Everything, kv, h, o.signer, registration).exec;
      r.Done? && o.Stands(r.kv, start, exit, [])
  {
  }

  lemma Reregistered(
    env: Env, kv: Store, blocks: seq<Block>, o: Operator, h: Height, op: int, start: uint64, exit: uint64, was: uint64)
    requires o.Ready(env, kv)
    requires o.Stands(ApplyChain(env, kv, blocks), 2, was, [])
    requires o.fee <= BalanceOf(ApplyChain(env, kv, blocks), o.signer)
    requires if op == CREATE_ROLLUP then Epoch(h, env) + 2 <= start && exit == 0
             else op == EXIT_ROLLUP && start == 2 && Epoch(h, env) + 2 <= exit
    ensures var s := ApplyChain(env, kv, blocks + [o.RegisterAt(h, op, start, exit)]);
      && o.Stands(s, start, exit, [])
      && BalanceOf(s, o.signer) == BalanceOf(ApplyChain(env, kv, blocks), o.signer) - o.fee
  {
    var s := ApplyChain(env, kv, blocks);
    ChainConcat(env, kv, blocks, [o.RegisterAt(h, op, start, exit)]);
    RegistrationSets(env, s, o, h, op, start, exit, was);
    RegisterRuns(env, s, h, o.ids(h), o.signer, o.fee, Registration(o.Profile(start, exit), o.namespace, op), 4);
  }

  /** The operator of a standing rollup can move it out of epoch 4 or back. */
  lemma ExitSets(env: Env, kv: Store, o: Operator, op: int)
    requires op in {CREATE_EXIT, DELETE_EXIT}
    requires o.Stands(kv, 2, 0, if op == CREATE_EXIT then [] else [EpochInfo(4, o.namespace)])
    requires ListFits(env, 4, [EpochInfo(4, o.namespace)]) && ListFits(env, 4, [])
    ensures var r := EpochExitExec(env, Everything, kv, o.signer, EpochInfo(4, o.namespace), 4, op);
      r.Done? && o.Stands(r.kv, 2, 0, if op == CREATE_EXIT then [EpochInfo(4, o.namespace)] else [])
  {
    var info := EpochInfo(4, o.namespace);
    assert [] + [info] == [info] && [info][..0] + [info][1..] == [];
  }

  lemma MovedOutOrBack(env: Env, kv: Store, blocks: seq<Block>, o: Operator, h: Height, op: int)
    requires o.Ready(env, kv) && op in {CREATE_EXIT, DELETE_EXIT}
    requires o.Stands(ApplyChain(env, kv, blocks), 2, 0, if op == CREATE_EXIT then [] else [EpochInfo(4, o.namespace)])
    requires o.fee <= BalanceOf(ApplyChain(env, kv, blocks), o.signer)
    ensures var s := ApplyChain(env, kv, blocks + [o.ExitAt(h, op)]);
      && o.Stands(s, 2, 0, if op == CREATE_EXIT then [EpochInfo(4, o.namespace)] else [])
      && BalanceOf(s, o.signer) == BalanceOf(ApplyChain(env, kv, blocks), o.signer) - o.fee
  {
    var s := ApplyChain(env, kv, blocks);
    ChainConcat(env, kv, blocks, [o.ExitAt(h, op)]);
    ExitSets(env, s, o, op);
    ExitRuns(env, s, h, o.ids(h), o.signer, o.fee, EpochInfo(4, o.namespace), op);
  }

  lemma OnListOfFour(o: Operator, kv: Store, start: uint64, exit: uint64, exits: seq<EpochInfo>)
    requires o.Stands(kv, start, exit, exits) && exits in {[], [EpochInfo(4, o.namespace)]}
    ensures TakesPart(kv, o.namespace, 4) <==> start <= 4 && (exit == 0 || 4 < exit) && exits == []
  {
    if exits != [] {
      assert exits[0].namespace in Names(exits);
    }
  }

  /** A re-registration in epoch 3, for epoch 5 on, takes a running rollup off the final list of epoch 4. */
  lemma ReRegistrationBreaksTheFreeze(env: Env, kv: Store, o: Operator)
    requires o.Ready(env, kv)
    ensures var create, again := o.RegisterAt(1, CREATE_ROLLUP, 2, 0), o.RegisterAt(18, CREATE_ROLLUP, 5, 0);
      && Epoch(again.height, env) == 3
      && TakesPart(ApplyChain(env, kv, [create]), o.namespace, 4)
      && !TakesPart(ApplyChain(env, kv, [create, again]), o.namespace, 4)
  {
    var create, again := o.RegisterAt(1, CREATE_ROLLUP, 2, 0), o.RegisterAt(18, CREATE_ROLLUP, 5, 0);
    Registered(env, kv, o);
    Reregistered(env, kv, [create], o, 18, CREATE_ROLLUP, 5, 0, 0);
    assert [create] + [again] == [create, again];
    OnListOfFour(o, ApplyChain(env, kv, [create]), 2, 0, []);
    OnListOfFour(o, ApplyChain(env, kv, [create, again]), 5, 0, []);
  }

  /** An EXIT in epoch 3, for epoch 9, puts a rollup that was to leave by epoch 4 back on the final list of epoch 4. */
  lemma LateExitBreaksTheFreeze(env: Env, kv: Store, o: Operator)
    requires o.Ready(env, kv)
    ensures var create, leave := o.RegisterAt(1, CREATE_ROLLUP, 2, 0), o.RegisterAt(2, EXIT_ROLLUP, 2, 4);
            var again := o.RegisterAt(18, EXIT_ROLLUP, 2, 9);
      && Epoch(again.height, env) == 3
      && !TakesPart(ApplyChain(env, kv, [create, leave]), o.namespace, 4)
      && TakesPart(ApplyChain(env, kv, [create, leave, again]), o.namespace, 4)
  {
    var create, leave := o.RegisterAt(1, CREATE_ROLLUP, 2, 0), o.RegisterAt(2, EXIT_ROLLUP, 2, 4);
    var again := o.RegisterAt(18, EXIT_ROLLUP, 2, 9);
    Registered(env, kv, o);
    Reregistered(env, kv, [create], o, 2, EXIT_ROLLUP, 2, 4, 0);
    assert [create] + [leave] == [create, leave];
    Reregistered(env, kv, [create, leave], o, 18, EXIT_ROLLUP, 2, 9, 4);
    assert [create, leave] + [again] == [create, leave, again];
    OnListOfFour(o, ApplyChain(env, kv, [create, leave]), 2, 4, []);
    OnListOfFour(o, ApplyChain(env, kv, [create, leave, again]), 2, 9, []);
  }

  /** An epoch exit in epoch 3 takes a running rollup off the final list of epoch 4. */
  lemma EpochExitBreaksTheFreeze(env: Env, kv: Store, o: Operator)
    requires o.Ready(env, kv)
    ensures var create, exit := o.RegisterAt(1, CREATE_ROLLUP, 2, 0), o.ExitAt(18, CREATE_EXIT);
      && Epoch(exit.height, env) == 3
      && TakesPart(ApplyChain(env, kv, [create]), o.namespace, 4)
      && !TakesPart(ApplyChain(env, kv, [create, exit]), o.namespace, 4)
  {
    var create, exit := o.RegisterAt(1, CREATE_ROLLUP, 2, 0), o.ExitAt(18, CREATE_EXIT);
    Registered(env, kv, o);
    MovedOutOrBack(env, kv, [create], o, 18, CREATE_EXIT);
    assert [create] + [exit] == [create, exit];
    OnListOfFour(o, ApplyChain(env, kv, [create]), 2, 0, []);
    OnListOfFour(o, ApplyChain(env, kv, [create, exit]), 2, 0, [EpochInfo(4, o.namespace)]);
  }

  /** Deleting such an exit in epoch 3 puts the rollup back on it. */
  lemma ReturnBreaksTheFreeze(env: Env, kv: Store, o: Operator)
    requires o.Ready(env, kv)
    ensures var create, exit := o.RegisterAt(1, CREATE_ROLLUP, 2, 0), o.ExitAt(2, CREATE_EXIT);
            var back := o.ExitAt(18, DELETE_EXIT);
      && Epoch(back.height, env) == 3
      && !TakesPart(ApplyChain(env, kv, [create, exit]), o.namespace, 4)
      && TakesPart(ApplyChain(env, kv, [create, exit, back]), o.namespace, 4)
  {
    var create, exit, back := o.RegisterAt(1, CREATE_ROLLUP, 2, 0), o.ExitAt(2, CREATE_EXIT), o.ExitAt(18, DELETE_EXIT);
    Registered(env, kv, o);
    MovedOutOrBack(env, kv, [create], o, 2, CREATE_EXIT);
    assert [create] + [exit] == [create, exit];
    MovedOutOrBack(env, kv, [create, exit], o, 18, DELETE_EXIT);
    assert [create, exit] + [back] == [create, exit, back];
    OnListOfFour(o, ApplyChain(env, kv, [create, exit]), 2, 0, [EpochInfo(4, o.namespace)]);
    OnListOfFour(o, ApplyChain(env, kv, [create, exit, back]), 2, 0, []);
  }
}
