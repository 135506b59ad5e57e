/**
  What holds of the rollup registry in every reachable state: the registry invariant and with it
  nil-safety, which epochs a registration changes, and who may change a rollup's info.
 */
module Rollups {
  import opened Base
  import opened ChainState
  import opened Actions
  import opened Blocks
  import opened Serializability

  // ---------- what a committed event does to the rollups ----------

  /** The registration an event carries, if it is one. */
  function Registers(e: Event): Option<Registration> {
    if e.Act? && e.action.Register? then Some(e.action.reg) else None
  }

  /** A successful registration writes exactly one info, of its own namespace, and only ever appends to the registry. */
  lemma RegisterEffect(env: Env, kv: Store, h: Height, actor: Address, r: Registration)
    requires RegisterExec(env, Everything, kv, h, actor, r).exec.Done?
    ensures var res, nss := RegisterExec(env, Everything, kv, h, actor, r), RegistryOf(kv);
      && res.info.namespace == r.namespace && |r.namespace| <= env.maxNamespaceLen
      && InfoOf(res.exec.kv, r.namespace) == Some(res.info)
      && RegistryOf(res.exec.kv) == (if r.namespace in nss then nss else nss + [r.namespace])
      && forall ns :: ns != r.namespace ==> InfoOf(res.exec.kv, ns) == InfoOf(kv, ns)
  {
  }

  // ---------- which registrations are accepted, and what they store ----------

  /** The signer is the stored authority of a registered namespace. */
  predicate IsAuthority(kv: Store, actor: Address, ns: Namespace) {
    ns in RegistryOf(kv) && InfoOf(kv, ns).Some? && InfoOf(kv, ns).value.authority == actor
  }

  predicate RecordsFit(env: Env, info: RollupInfo, registry: seq<Namespace>) {
    env.fits(InfoKey(info.namespace), Info(info)) && env.fits(RegistryKey, Registry(registry))
  }

  predicate NamedAlike(env: Env, r: Registration) {
    r.namespace == r.info.namespace && |r.namespace| <= env.maxNamespaceLen
  }

  /**
    CREATE (op code 0): accepted from anyone for a namespace that is not registered and from the
    authority for one that is, to start two epochs ahead or later and without an exit. The info is
    stored as the action has it.
   */
  lemma CreateAccepted(env: Env, kv: Store, h: Height, actor: Address, r: Registration)
    requires r.opCode == 0
    ensures var res, nss := RegisterExec(env, Everything, kv, h, actor, r), RegistryOf(kv);
      && (res.exec.Done? <==>
           && NamedAlike(env, r)
           && (r.namespace in nss ==> IsAuthority(kv, actor, r.namespace))
           && r.info.startEpoch >= Epoch(h, env) + 2 && r.info.exitEpoch == 0
           && RecordsFit(env, r.info, if r.namespace in nss then nss else nss + [r.namespace]))
      && (res.exec.Done? ==> InfoOf(res.exec.kv, r.namespace) == Some(r.info))
      && res.info == r.info
  {
  }

  /**
    UPDATE (op code 2): accepted from the authority of a registered namespace, whatever epochs the
    action carries. Recipient, authority and key are stored as the action has them, the epochs stay.
   */
  lemma UpdateAccepted(env: Env, kv: Store, h: Height, actor: Address, r: Registration)
    requires r.opCode == 2
    ensures var res := RegisterExec(env, Everything, kv, h, actor, r);
      if NamedAlike(env, r) && IsAuthority(kv, actor, r.namespace) then
        var was := InfoOf(kv, r.namespace).value;
        var info := RollupInfo(r.namespace, r.info.feeRecipient, r.info.authority, r.info.sequencerPublicKey,
                               was.startEpoch, was.exitEpoch);
        && res.info == info
        && (res.exec.Done? <==> RecordsFit(env, info, RegistryOf(kv)))
        && (res.exec.Done? ==> InfoOf(res.exec.kv, r.namespace) == Some(info))
      else res.exec.Fail? && res.info == r.info
  {
  }

  /**
    EXIT (op code 1): accepted from the authority of a registered namespace, for an exit two epochs
    ahead or later and not before the stored start. All but the start is stored as the action has it.
   */
  lemma ExitAccepted(env: Env, kv: Store, h: Height, actor: Address, r: Registration)
    requires r.opCode == 1
    ensures var res := RegisterExec(env, Everything, kv, h, actor, r);
      if && NamedAlike(env, r) && IsAuthority(kv, actor, r.namespace)
         && r.info.exitEpoch >= Epoch(h, env) + 2 && r.info.exitEpoch >= InfoOf(kv, r.namespace).value.startEpoch
      then
        var info := RollupInfo(r.namespace, r.info.feeRecipient, r.info.authority, r.info.sequencerPublicKey,
                               InfoOf(kv, r.namespace).value.startEpoch, r.info.exitEpoch);
        && res.info == info
        && (res.exec.Done? <==> RecordsFit(env, info, RegistryOf(kv)))
        && (res.exec.Done? ==> InfoOf(res.exec.kv, r.namespace) == Some(info))
      else res.exec.Fail? && res.info == r.info
  {
  }

  /** Why a registration is refused: the first of these that applies. */
  lemma RegistrationRefused(env: Env, kv: Store, h: Height, actor: Address, r: Registration)
    requires RegisterExec(env, Everything, kv, h, actor, r).exec.Fail?
    ensures var err, ns := RegisterExec(env, Everything, kv, h, actor, r).exec.err, r.namespace;
      if ns != r.info.namespace then err == NamespaceMismatch
      else if |ns| > env.maxNamespaceLen then err == NamespaceTooLong
      else if r.opCode !in {0, 1, 2} then err == OpCodeNotSupported
      else if ns !in RegistryOf(kv) && r.opCode != 0 then err == NamespaceNotRegistered
      else if ns in RegistryOf(kv) && InfoOf(kv, ns).None? then err == NilDereference
      else if ns in RegistryOf(kv) && !IsAuthority(kv, actor, ns) then err == NotAuthorized
      else if r.opCode == 0 && (r.info.startEpoch < Epoch(h, env) + 2 || r.info.exitEpoch != 0) then err == EpochNotValid
      else if r.opCode == 1 && r.info.exitEpoch < Epoch(h, env) + 2 then err == EpochNotValid
      else if r.opCode == 1 && r.info.exitEpoch < InfoOf(kv, ns).value.startEpoch then err == EpochNotValid
      else err == InvalidKeyOrValue
  {
  }

  /** Every other event leaves all of it alone. */
  lemma OthersKeepRollups(env: Env, kv: Store, e: Event)
    requires Registers(e).None?
    ensures var kv' := EventExec(env, kv, e).kv;
      RegistryOf(kv') == RegistryOf(kv) && forall ns :: InfoOf(kv', ns) == InfoOf(kv, ns)
  {
    var kv' := EventExec(env, kv, e).kv;
    match e {
      case Fee(sponsor, amount) => FeeFrame(env, kv, sponsor, amount);
      case Act(h, actor, a) => ActionFrame(env, kv, h, actor, a);
    }
    assert SameAt(kv, kv', RegistryKey);
    forall ns
      ensures InfoOf(kv', ns) == InfoOf(kv, ns)
    {
      assert SameAt(kv, kv', InfoKey(ns));
    }
  }

  // ---------- the registry invariant ----------

  ghost predicate GoodInfo(env: Env, ns: Namespace, info: RollupInfo) {
    && info.namespace == ns
    && |ns| <= env.maxNamespaceLen
    && 2 <= info.startEpoch
    && (info.exitEpoch == 0 || info.startEpoch <= info.exitEpoch)
  }

  /** The registry lists, without repetition, exactly the namespaces with a stored info; each info is well formed. */
  ghost predicate RegistryInvariant(env: Env, kv: Store) {
    && (forall i, j :: 0 <= i < j < |RegistryOf(kv)| ==> RegistryOf(kv)[i] != RegistryOf(kv)[j])
    && (forall ns :: ns in RegistryOf(kv) <==> InfoOf(kv, ns).Some?)
    && (forall ns :: ns in RegistryOf(kv) ==> GoodInfo(env, ns, InfoOf(kv, ns).value))
  }

  lemma RegisterKeepsInvariant(env: Env, kv: Store, h: Height, actor: Address, r: Registration)
    requires RegistryInvariant(env, kv)
    requires RegisterExec(env, Everything, kv, h, actor, r).exec.Done?
    ensures RegistryInvariant(env, RegisterExec(env, Everything, kv, h, actor, r).exec.kv)
    ensures RegistryOf(kv) <= RegistryOf(RegisterExec(env, Everything, kv, h, actor, r).exec.kv)
  {
    var res := RegisterExec(env, Everything, kv, h, actor, r);
    RegisterEffect(env, kv, h, actor, r);
    assert GoodInfo(env, r.namespace, res.info);
    var nss := RegistryOf(res.exec.kv);
    assert forall ns :: ns in nss <==> ns in RegistryOf(kv) || ns == r.namespace;
  }

  /** Every committed event keeps the invariant, and the registry it leaves extends the one it found. */
  lemma EventKeepsInvariant(env: Env, kv: Store, e: Event)
    requires RegistryInvariant(env, kv) && EventExec(env, kv, e).Done?
    ensures RegistryInvariant(env, EventExec(env, kv, e).kv)
    ensures RegistryOf(kv) <= RegistryOf(EventExec(env, kv, e).kv)
  {
    if Registers(e).Some? {
      RegisterKeepsInvariant(env, kv, e.height, e.actor, e.action.reg);
    } else {
      OthersKeepRollups(env, kv, e);
    }
  }

  lemma {:induction false} ReplayKeepsInvariant(env: Env, kv: Store, events: seq<Event>)
    requires RegistryInvariant(env, kv) && Replay(env, kv, events).Done?
    ensures RegistryInvariant(env, Replay(env, kv, events).kv)
    ensures RegistryOf(kv) <= RegistryOf(Replay(env, kv, events).kv)
    decreases events
  {
    if events != [] {
      EventKeepsInvariant(env, kv, events[0]);
      ReplayKeepsInvariant(env, EventExec(env, kv, events[0]).kv, events[1..]);
    }
  }

  /** After any chain of blocks the invariant holds and later registries extend earlier ones. */
  lemma ChainKeepsInvariant(env: Env, kv: Store, blocks: seq<Block>)
    requires RegistryInvariant(env, kv)
    ensures RegistryInvariant(env, ApplyChain(env, kv, blocks))
    ensures RegistryOf(kv) <= RegistryOf(ApplyChain(env, kv, blocks))
  {
    ChainIsReplay(env, kv, blocks);
    ReplayKeepsInvariant(env, kv, ChainEvents(env, kv, blocks));
  }

  // ---------- nil-safety ----------

  lemma ActionNilSafe(env: Env, kv: Store, h: Height, actor: Address, a: Action)
    requires RegistryInvariant(env, kv)
    ensures ActionExec(env, Everything, kv, h, actor, a).Fail? ==>
      ActionExec(env, Everything, kv, h, actor, a).err != NilDereference
  {
    if a.Register? {
      assert a.reg.info.namespace in RegistryOf(kv) ==> InfoOf(kv, a.reg.info.namespace).Some?;
    } else if a.Exit? {
      assert a.exit.namespace in RegistryOf(kv) ==> InfoOf(kv, a.exit.namespace).Some?;
    }
  }

  lemma {:induction false} ActionsNilSafe(env: Env, kv: Store, h: Height, actor: Address, actions: seq<Action>)
    requires RegistryInvariant(env, kv)
    ensures ActionsExec(env, Everything, kv, h, actor, actions).Fail? ==>
      ActionsExec(env, Everything, kv, h, actor, actions).err != NilDereference
    decreases actions
  {
    if actions != [] {
      ActionNilSafe(env, kv, h, actor, actions[0]);
      var e := Act(h, actor, actions[0]);
      if EventExec(env, kv, e).Done? {
        EventKeepsInvariant(env, kv, e);
        ActionsNilSafe(env, EventExec(env, kv, e).kv, h, actor, actions[1..]);
      }
    }
  }

  /** After any chain of blocks, no transaction dereferences a missing rollup info. */
  lemma NilSafe(env: Env, kv: Store, blocks: seq<Block>, h: Height, tx: Tx)
    requires RegistryInvariant(env, kv)
    ensures ApplyTx(env, ApplyChain(env, kv, blocks), h, tx).verdict != Failed(NilDereference)
  {
    var s := ApplyChain(env, kv, blocks);
    ChainKeepsInvariant(env, kv, blocks);
    ConfinementIsInvisible(env, s, h, tx);
    var fee := Fee(tx.sponsor, tx.fee);
    var paid := EventExec(env, s, fee);
    if paid.Done? {
      EventKeepsInvariant(env, s, fee);
      ActionsNilSafe(env, paid.kv, h, tx.actor, tx.actions);
    }
  }

  // ---------- rpc: GetAllRollupInfo ----------

  /** The infos that start at epoch e, in order. */
  function StartingAt(infos: seq<RollupInfo>, e: uint64): seq<RollupInfo> {
    if infos == [] then []
    else
      var last := infos[|infos| - 1];
      StartingAt(infos[..|infos| - 1], e) + if last.startEpoch == e then [last] else []
  }

  /** Grouping goes through the infos one by one, in order. */
  lemma {:induction false} StartingAtConcat(a: seq<RollupInfo>, b: seq<RollupInfo>, e: uint64)
    ensures StartingAt(a + b, e) == StartingAt(a, e) + StartingAt(b, e)
    decreases |b|
  {
    if b == [] {
      assert a + b == a;
    } else {
      assert (a + b)[..|a + b| - 1] == a + b[..|b| - 1] && (a + b)[|a + b| - 1] == b[|b| - 1];
      var init := b[..|b| - 1];
      StartingAtConcat(a, init, e);
    }
  }

  lemma StartingAtOne(x: RollupInfo, e: uint64)
    ensures StartingAt([x], e) == if x.startEpoch == e then [x] else []
  {
    assert [x][..0] == [];
  }

  lemma {:induction false} StartingAtMembers(infos: seq<RollupInfo>, e: uint64)
    ensures forall info :: info in StartingAt(infos, e) <==> info in infos && info.startEpoch == e
  {
    if infos != [] {
      var n := |infos| - 1;
      StartingAtMembers(infos[..n], e);
      assert infos == infos[..n] + [infos[n]];
    }
  }

  /** Each group holds the infos that start at its epoch, in order, and no group is empty. */
  ghost predicate GroupedByStart(groups: map<uint64, seq<RollupInfo>>, infos: seq<RollupInfo>) {
    && (forall e: uint64 :: e in groups <==> StartingAt(infos, e) != [])
    && (forall e :: e in groups ==> groups[e] == StartingAt(infos, e))
  }

  lemma GroupOne(groups: map<uint64, seq<RollupInfo>>, infos: seq<RollupInfo>, info: RollupInfo)
    requires GroupedByStart(groups, infos)
    ensures var l := if info.startEpoch in groups then groups[info.startEpoch] else [];
      GroupedByStart(groups[info.startEpoch := l + [info]], infos + [info])
  {
    assert (infos + [info])[..|infos|] == infos;
    assert forall e: uint64 ::
      StartingAt(infos + [info], e) == StartingAt(infos, e) + if info.startEpoch == e then [info] else [];
  }

  /** The infos of the namespaces, each as the state it was read in has it. */
  ghost predicate WereRead(namespaces: seq<Namespace>, states: seq<Store>, infos: seq<RollupInfo>) {
    && |infos| == |namespaces| == |states|
    && forall i :: 0 <= i < |infos| ==> InfoOf(states[i], namespaces[i]) == Some(infos[i])
  }

  lemma ReadOne(namespaces: seq<Namespace>, states: seq<Store>, infos: seq<RollupInfo>, info: RollupInfo)
    requires |infos| < |namespaces| == |states|
    requires WereRead(namespaces[..|infos|], states[..|infos|], infos)
    requires InfoOf(states[|infos|], namespaces[|infos|]) == Some(info)
    ensures WereRead(namespaces[..|infos| + 1], states[..|infos| + 1], infos + [info])
  {
    assert forall i :: 0 <= i < |infos| ==> states[..|infos|][i] == states[i] && namespaces[..|infos|][i] == namespaces[i];
  }

  /** A registered namespace has an info in every later state. */
  lemma InfoStays(env: Env, kv: Store, blocks: seq<Block>, ns: Namespace)
    requires RegistryInvariant(env, kv) && ns in RegistryOf(kv)
    ensures InfoOf(ApplyChain(env, kv, blocks), ns).Some?
  {
    ChainKeepsInvariant(env, kv, blocks);
    var i :| 0 <= i < |RegistryOf(kv)| && RegistryOf(kv)[i] == ns;
    assert RegistryOf(ApplyChain(env, kv, blocks))[i] == ns;
  }

  /**
    The registry is read in one state and each info in some later state, reached by more blocks.
    No info is missing even so, and the reply groups what was read by start epoch.
   */
  method GetAllRollupInfo(env: Env, registryAt: Store, infoAt: seq<Store>, ghost later: seq<seq<Block>>)
    returns (reply: map<uint64, seq<RollupInfo>>)
    requires RegistryInvariant(env, registryAt)
    requires |infoAt| == |later| == |RegistryOf(registryAt)|
    requires forall i :: 0 <= i < |infoAt| ==> infoAt[i] == ApplyChain(env, registryAt, later[i])
    ensures exists read :: WereRead(RegistryOf(registryAt), infoAt, read) && GroupedByStart(reply, read)
  {
    var namespaces := RegistryOf(registryAt);
    reply := map[];
    ghost var read := [];
    for i := 0 to |namespaces|
      invariant WereRead(namespaces[..i], infoAt[..i], read)
      invariant GroupedByStart(reply, read)
    {
      InfoStays(env, registryAt, later[i], namespaces[i]);
      var info := InfoOf(infoAt[i], namespaces[i]).value;
      var l := if info.startEpoch in reply then reply[info.startEpoch] else [];
      GroupOne(reply, read, info);
      ReadOne(namespaces, infoAt, read, info);
      reply := reply[info.startEpoch := l + [info]];
      read := read + [info];
    }
    assert namespaces[..|namespaces|] == namespaces && infoAt[..|namespaces|] == infoAt;
  }

  // ---------- the epochs a rollup is registered for ----------

  /** Whether the rollup is registered for epoch e; Participants.dfy adds the exits from single epochs. */
  predicate Participates(kv: Store, ns: Namespace, e: int) {
    && ns in RegistryOf(kv)
    && InfoOf(kv, ns).Some?
    && InfoOf(kv, ns).value.ValidAtEpoch(e)
  }

  ghost predicate SameParticipantsUpTo(kv: Store, kv': Store, last: int) {
    forall ns, e :: e <= last ==> (Participates(kv, ns, e) <==> Participates(kv', ns, e))
  }

  /**
    What a caller can check beforehand: a CREATE finds its namespace unregistered or without a
    participation before epoch c+2, and an EXIT does not overwrite an exit that falls before c+2.
   */
  predicate KeepsSchedule(kv: Store, c: int, r: Registration) {
    match InfoOf(kv, r.namespace)
    case None => true
    case Some(stored) =>
      || r.opCode == UPDATE_ROLLUP
      || stored.startEpoch >= c + 2
      || (r.opCode == CREATE_ROLLUP && stored.exitEpoch == stored.startEpoch)
      || (r.opCode == EXIT_ROLLUP && (stored.exitEpoch == 0 || stored.exitEpoch >= c + 2))
  }

  /** Whether a registration in epoch c changes that its rollup is registered for epoch e, no later than c+1. */
  predicate Disturbs(kv: Store, c: int, r: Registration, e: int) {
    && e <= c + 1
    && InfoOf(kv, r.namespace).Some?
    && var stored := InfoOf(kv, r.namespace).value;
       || (r.opCode == CREATE_ROLLUP && stored.ValidAtEpoch(e))
       || (r.opCode == EXIT_ROLLUP && stored.Exited(e))
  }

  lemma RegistrationDisturbs(env: Env, kv: Store, h: Height, actor: Address, r: Registration, e: int)
    requires RegistryInvariant(env, kv) && e <= Epoch(h, env) + 1
    requires RegisterExec(env, Everything, kv, h, actor, r).exec.Done?
    ensures var kv', ns := RegisterExec(env, Everything, kv, h, actor, r).exec.kv, r.namespace;
      Disturbs(kv, Epoch(h, env), r, e) <==> Participates(kv, ns, e) != Participates(kv', ns, e)
  {
    RegisterEffect(env, kv, h, actor, r);
    assert r.namespace in RegistryOf(RegisterExec(env, Everything, kv, h, actor, r).exec.kv);
  }

  lemma DisturbsNothing(env: Env, kv: Store, c: int, r: Registration)
    requires RegistryInvariant(env, kv) && r.opCode in {CREATE_ROLLUP, UPDATE_ROLLUP, EXIT_ROLLUP}
    ensures KeepsSchedule(kv, c, r) <==> forall e :: !Disturbs(kv, c, r, e)
  {
    if !KeepsSchedule(kv, c, r) {
      var stored := InfoOf(kv, r.namespace).value;
      assert r.namespace in RegistryOf(kv);
      assert Disturbs(kv, c, r, if r.opCode == CREATE_ROLLUP then stored.startEpoch else stored.exitEpoch);
    }
  }

  /**
    A registration in epoch c leaves the rollups registered for every epoch up to c+1 as they were
    exactly when it keeps the schedule.
   */
  lemma FrozenIffKeepsSchedule(env: Env, kv: Store, h: Height, actor: Address, r: Registration)
    requires RegistryInvariant(env, kv)
    requires RegisterExec(env, Everything, kv, h, actor, r).exec.Done?
    ensures SameParticipantsUpTo(kv, RegisterExec(env, Everything, kv, h, actor, r).exec.kv, Epoch(h, env) + 1)
        <==> KeepsSchedule(kv, Epoch(h, env), r)
  {
    var c, kv' := Epoch(h, env), RegisterExec(env, Everything, kv, h, actor, r).exec.kv;
    RegisterEffect(env, kv, h, actor, r);
    DisturbsNothing(env, kv, c, r);
    forall ns, e | e <= c + 1
      ensures Participates(kv, ns, e) != Participates(kv', ns, e) <==> ns == r.namespace && Disturbs(kv, c, r, e)
    {
      if ns == r.namespace {
        RegistrationDisturbs(env, kv, h, actor, r, e);
      } else {
        assert ns in RegistryOf(kv') <==> ns in RegistryOf(kv);
      }
    }
    if e :| Disturbs(kv, c, r, e) {
      assert Participates(kv, r.namespace, e) != Participates(kv', r.namespace, e);
    }
  }

  /** What each successful registration schedules for its namespace. */
  lemma ScheduleAfter(env: Env, kv: Store, h: Height, actor: Address, r: Registration, e: int)
    requires RegistryInvariant(env, kv)
    requires RegisterExec(env, Everything, kv, h, actor, r).exec.Done?
    ensures var kv', ns := RegisterExec(env, Everything, kv, h, actor, r).exec.kv, r.namespace;
      && (r.opCode == CREATE_ROLLUP ==> (Participates(kv', ns, e) <==> r.info.startEpoch <= e))
      && (r.opCode == UPDATE_ROLLUP ==> (Participates(kv', ns, e) <==> Participates(kv, ns, e)))
      && (r.opCode == EXIT_ROLLUP ==>
           (Participates(kv', ns, e) <==> InfoOf(kv, ns).value.startEpoch <= e < r.info.exitEpoch))
  {
    RegisterEffect(env, kv, h, actor, r);
    assert r.namespace in RegistryOf(RegisterExec(env, Everything, kv, h, actor, r).exec.kv);
  }

  /**
    Executing an action rewrites the info it carries, but an action already rewritten by an execution
    in any other state still does what the original would: a node may execute it more than once.
   */
  lemma ReexecutionUnaffected(
    env: Env, sc: Scope, kv: Store, h: uint64, actor: Address, r: Registration,
    sc0: Scope, kv0: Store, h0: uint64, actor0: Address)
    ensures var again := r.(info := RegisterExec(env, sc0, kv0, h0, actor0, r).info);
      && RegisterExec(env, sc, kv, h, actor, again).exec == RegisterExec(env, sc, kv, h, actor, r).exec
      && (RegisterExec(env, sc, kv, h, actor, r).exec.Done? ==>
           RegisterExec(env, sc, kv, h, actor, again).info == RegisterExec(env, sc, kv, h, actor, r).info)
  {
    var again := r.(info := RegisterExec(env, sc0, kv0, h0, actor0, r).info);
    assert again.info == r.info.(exitEpoch := again.info.exitEpoch, startEpoch := again.info.startEpoch);
  }

  // ---------- chain of custody ----------

  /** An event that changes a stored info, or its authority, was signed by the authority stored before it. */
  lemma OnlyAuthorityChanges(env: Env, kv: Store, e: Event, ns: Namespace)
    requires RegistryInvariant(env, kv) && EventExec(env, kv, e).Done?
    requires InfoOf(kv, ns).Some? && InfoOf(EventExec(env, kv, e).kv, ns) != InfoOf(kv, ns)
    ensures Registers(e).Some? && Registers(e).value.namespace == ns && e.actor == InfoOf(kv, ns).value.authority
  {
    if Registers(e).Some? {
      RegisterEffect(env, kv, e.height, e.actor, e.action.reg);
    } else {
      OthersKeepRollups(env, kv, e);
    }
  }

  /** Somewhere in the run, `signer` signs a registration of ns. */
  ghost predicate SignsFor(events: seq<Event>, signer: Address, ns: Namespace) {
    exists i :: 0 <= i < |events| && Registers(events[i]).Some?
      && Registers(events[i]).value.namespace == ns && events[i].actor == signer
  }

  lemma {:induction false} ReplayCustody(env: Env, kv: Store, events: seq<Event>, ns: Namespace)
    requires RegistryInvariant(env, kv) && Replay(env, kv, events).Done?
    requires InfoOf(kv, ns).Some? && !SignsFor(events, InfoOf(kv, ns).value.authority, ns)
    ensures InfoOf(Replay(env, kv, events).kv, ns) == InfoOf(kv, ns)
    decreases events
  {
    if events != [] {
      var s := EventExec(env, kv, events[0]).kv;
      EventKeepsInvariant(env, kv, events[0]);
      if InfoOf(s, ns) != InfoOf(kv, ns) {
        OnlyAuthorityChanges(env, kv, events[0], ns);
        assert false;
      }
      assert forall i :: 0 <= i < |events[1..]| ==> events[1..][i] == events[i + 1];
      ReplayCustody(env, s, events[1..], ns);
    }
  }

  /**
    A registered rollup whose stored authority signs no registration of it keeps its info, authority
    included, through any chain of blocks: control passes only from its holder.
   */
  lemma Custody(env: Env, kv: Store, blocks: seq<Block>, ns: Namespace)
    requires RegistryInvariant(env, kv) && InfoOf(kv, ns).Some?
    requires !SignsFor(ChainEvents(env, kv, blocks), InfoOf(kv, ns).value.authority, ns)
    ensures InfoOf(ApplyChain(env, kv, blocks), ns) == InfoOf(kv, ns)
  {
    ChainIsReplay(env, kv, blocks);
    ReplayCustody(env, kv, ChainEvents(env, kv, blocks), ns);
  }
}
