/** The per-epoch exit lists: in every reachable state each is a set of registered namespaces, in order of entry. */
module EpochExits {
  import opened Base
  import opened ChainState
  import opened Actions
  import opened Blocks
  import opened Serializability
  import opened Rollups
  import opened Schedules

  ghost function Names(exits: seq<EpochInfo>): set<Namespace> {
    set i | 0 <= i < |exits| :: exits[i].namespace
  }

  /** The namespaces out of epoch e. */
  ghost function ExitSet(kv: Store, e: uint64): set<Namespace> {
    Names(ExitsOf(kv, e))
  }

  ghost predicate DistinctNamespaces(exits: seq<EpochInfo>) {
    forall i, j :: 0 <= i < j < |exits| ==> exits[i].namespace != exits[j].namespace
  }

  ghost predicate GoodExits(exits: seq<EpochInfo>, e: uint64, registered: seq<Namespace>) {
    && DistinctNamespaces(exits)
    && forall i :: 0 <= i < |exits| ==> exits[i].epoch == e && exits[i].namespace in registered
  }

  ghost predicate ExitsInvariant(kv: Store) {
    forall e: uint64 :: GoodExits(ExitsOf(kv, e), e, RegistryOf(kv))
  }

  lemma AppendNames(exits: seq<EpochInfo>, info: EpochInfo)
    requires DistinctNamespaces(exits) && info.namespace !in Names(exits)
    ensures DistinctNamespaces(exits + [info])
    ensures Names(exits + [info]) == Names(exits) + {info.namespace}
  {
    var exits' := exits + [info];
    assert exits'[|exits|] == info && forall j :: 0 <= j < |exits| ==> exits'[j] == exits[j];
    assert forall j :: 0 <= j < |exits| ==> exits[j].namespace in Names(exits);
  }

  lemma WithoutNames(exits: seq<EpochInfo>, i: nat)
    requires DistinctNamespaces(exits) && i < |exits|
    ensures DistinctNamespaces(Without(exits, i))
    ensures Names(Without(exits, i)) == Names(exits) - {exits[i].namespace}
  {
    var exits' := Without(exits, i);
    assert forall j :: 0 <= j < |exits'| ==> exits'[j] == exits[if j < i then j else j + 1];
    forall ns | ns in Names(exits) - {exits[i].namespace}
      ensures ns in Names(exits')
    {
      var j :| 0 <= j < |exits| && exits[j].namespace == ns;
      assert exits'[if j < i then j else j - 1].namespace == ns;
    }
  }

  lemma FirstExitFound(exits: seq<EpochInfo>, ns: Namespace)
    ensures FirstExit(exits, ns) < |exits| <==> ns in Names(exits)
  {
  }

  /** The list fits into its record. */
  predicate ListFits(env: Env, epoch: uint64, exits: seq<EpochInfo>) {
    env.fits(ExitsKey(epoch), Exits(exits))
  }

  /**
    CREATE (op code 0) is insert-if-absent: it succeeds exactly for the authority of a registered
    rollup that is not out yet, provided the longer list fits, and appends it.
   */
  lemma CreateInserts(env: Env, kv: Store, actor: Address, info: EpochInfo, epoch: uint64)
    requires DistinctNamespaces(ExitsOf(kv, epoch))
    ensures var r := EpochExitExec(env, Everything, kv, actor, info, epoch, 0);
      && (r.Done? <==>
           && epoch == info.epoch && IsAuthority(kv, actor, info.namespace)
           && info.namespace !in ExitSet(kv, epoch) && ListFits(env, epoch, ExitsOf(kv, epoch) + [info]))
      && (r.Done? ==> ExitsOf(r.kv, epoch) == ExitsOf(kv, epoch) + [info])
      && (r.Done? ==> ExitSet(r.kv, epoch) == ExitSet(kv, epoch) + {info.namespace})
      && forall e :: e != epoch ==> ExitsOf(r.kv, e) == ExitsOf(kv, e)
  {
    FirstExitFound(ExitsOf(kv, epoch), info.namespace);
    if info.namespace !in ExitSet(kv, epoch) {
      AppendNames(ExitsOf(kv, epoch), info);
    }
  }

  /** The position of a namespace that is out. */
  ghost predicate IsEntry(exits: seq<EpochInfo>, ns: Namespace, i: int) {
    0 <= i < |exits| && exits[i].namespace == ns
  }

  /**
    DELETE (op code 1) is remove-if-present: it succeeds exactly for the authority of a registered
    rollup that is out, provided the shorter list fits, and keeps the other entries in order.
   */
  lemma DeleteRemoves(env: Env, kv: Store, actor: Address, info: EpochInfo, epoch: uint64)
    requires DistinctNamespaces(ExitsOf(kv, epoch))
    ensures var r, exits := EpochExitExec(env, Everything, kv, actor, info, epoch, 1), ExitsOf(kv, epoch);
      && (r.Done? <==>
           && epoch == info.epoch && IsAuthority(kv, actor, info.namespace)
           && exists i :: IsEntry(exits, info.namespace, i) && ListFits(env, epoch, Without(exits, i)))
      && (r.Done? ==> forall i :: IsEntry(exits, info.namespace, i) ==> ExitsOf(r.kv, epoch) == Without(exits, i))
      && (r.Done? ==> info.namespace in ExitSet(kv, epoch))
      && (r.Done? ==> ExitSet(r.kv, epoch) == ExitSet(kv, epoch) - {info.namespace})
      && forall e :: e != epoch ==> ExitsOf(r.kv, e) == ExitsOf(kv, e)
  {
    var exits := ExitsOf(kv, epoch);
    FirstExitFound(exits, info.namespace);
    if info.namespace in ExitSet(kv, epoch) {
      var i := FirstExit(exits, info.namespace);
      assert IsEntry(exits, info.namespace, i);
      WithoutNames(exits, i);
    }
  }

  /** Why an epoch exit is refused, the first of these that applies; nothing changes then. */
  lemma ExitRefused(env: Env, kv: Store, actor: Address, info: EpochInfo, epoch: uint64, op: int)
    requires EpochExitExec(env, Everything, kv, actor, info, epoch, op).Fail?
    ensures var r, ns := EpochExitExec(env, Everything, kv, actor, info, epoch, op), info.namespace;
      && r.kv == kv
      && r.err == (if epoch != info.epoch then EpochMismatch
                   else if ns !in RegistryOf(kv) then NamespaceNotRegistered
                   else if InfoOf(kv, ns).None? then NilDereference
                   else if InfoOf(kv, ns).value.authority != actor then NotAuthorized
                   else if op == 0 && ns in ExitSet(kv, epoch) then ExitAlreadyExists
                   else if op == 1 && ns !in ExitSet(kv, epoch) then ExitNotFound
                   else if op in {0, 1} then InvalidKeyOrValue
                   else OpCodeNotSupported)
  {
    FirstExitFound(ExitsOf(kv, epoch), info.namespace);
  }

  /** Creating an exit and deleting it again gives back the list. */
  lemma CreateThenDelete(env: Env, kv: Store, actor: Address, info: EpochInfo, epoch: uint64)
    requires epoch == info.epoch && IsAuthority(kv, actor, info.namespace) && ExitsInvariant(kv)
    requires info.namespace !in ExitSet(kv, epoch)
    requires ListFits(env, epoch, ExitsOf(kv, epoch) + [info]) && ListFits(env, epoch, ExitsOf(kv, epoch))
    ensures var created := EpochExitExec(env, Everything, kv, actor, info, epoch, CREATE_EXIT);
            var deleted := EpochExitExec(env, Everything, created.kv, actor, info, epoch, DELETE_EXIT);
            created.Done? && deleted.Done? && forall e :: ExitsOf(deleted.kv, e) == ExitsOf(kv, e)
  {
    var exits := ExitsOf(kv, epoch);
    CreateInserts(env, kv, actor, info, epoch);
    AppendNames(exits, info);
    var created := EpochExitExec(env, Everything, kv, actor, info, epoch, CREATE_EXIT);
    DeleteRemoves(env, created.kv, actor, info, epoch);
    assert ExitsOf(created.kv, epoch)[|exits|].namespace == info.namespace;
    assert Without(exits + [info], |exits|) == exits;
  }

  /** Deleting an exit and creating it again moves it to the end of the list. */
  lemma DeleteThenCreate(env: Env, kv: Store, actor: Address, info: EpochInfo, epoch: uint64, i: nat)
    requires epoch == info.epoch && IsAuthority(kv, actor, info.namespace) && ExitsInvariant(kv)
    requires i < |ExitsOf(kv, epoch)| && ExitsOf(kv, epoch)[i].namespace == info.namespace
    requires ListFits(env, epoch, Without(ExitsOf(kv, epoch), i))
    requires ListFits(env, epoch, Without(ExitsOf(kv, epoch), i) + [info])
    ensures var deleted := EpochExitExec(env, Everything, kv, actor, info, epoch, DELETE_EXIT);
            var created := EpochExitExec(env, Everything, deleted.kv, actor, info, epoch, CREATE_EXIT);
            && deleted.Done? && created.Done?
            && ExitsOf(created.kv, epoch) == Without(ExitsOf(kv, epoch), i) + [info]
  {
    var exits := ExitsOf(kv, epoch);
    DeleteRemoves(env, kv, actor, info, epoch);
    WithoutNames(exits, i);
    var deleted := EpochExitExec(env, Everything, kv, actor, info, epoch, DELETE_EXIT);
    CreateInserts(env, deleted.kv, actor, info, epoch);
  }

  // ---------- every reachable state ----------

  lemma ExitKeepsList(env: Env, kv: Store, actor: Address, info: EpochInfo, epoch: uint64, op: int)
    requires GoodExits(ExitsOf(kv, epoch), epoch, RegistryOf(kv))
    requires EpochExitExec(env, Everything, kv, actor, info, epoch, op).Done?
    ensures var kv' := EpochExitExec(env, Everything, kv, actor, info, epoch, op).kv;
      GoodExits(ExitsOf(kv', epoch), epoch, RegistryOf(kv))
  {
    var exits := ExitsOf(kv, epoch);
    var i := FirstExit(exits, info.namespace);
    FirstExitFound(exits, info.namespace);
    if op == CREATE_EXIT {
      AppendNames(exits, info);
    } else {
      WithoutNames(exits, i);
      var exits' := Without(exits, i);
      assert forall j :: 0 <= j < |exits'| ==> exits'[j] == exits[if j < i then j else j + 1];
    }
  }

  lemma ExitKeepsInvariant(env: Env, kv: Store, actor: Address, info: EpochInfo, epoch: uint64, op: int)
    requires ExitsInvariant(kv)
    requires EpochExitExec(env, Everything, kv, actor, info, epoch, op).Done?
    ensures ExitsInvariant(EpochExitExec(env, Everything, kv, actor, info, epoch, op).kv)
  {
    var kv' := EpochExitExec(env, Everything, kv, actor, info, epoch, op).kv;
    ExitKeepsList(env, kv, actor, info, epoch, op);
    assert RegistryOf(kv') == RegistryOf(kv);
    assert forall e :: e != epoch ==> ExitsOf(kv', e) == ExitsOf(kv, e);
  }

  lemma OthersKeepExits(env: Env, kv: Store, e: Event, epoch: uint64)
    requires !(e.Act? && e.action.Exit?)
    ensures ExitsOf(EventExec(env, kv, e).kv, epoch) == ExitsOf(kv, epoch)
  {
    match e {
      case Fee(sponsor, amount) => FeeFrame(env, kv, sponsor, amount);
      case Act(h, actor, a) => ActionFrame(env, kv, h, actor, a);
    }
    assert SameAt(kv, EventExec(env, kv, e).kv, ExitsKey(epoch));
  }

  /** Every committed event keeps each list distinct, tagged with its epoch, and made of registered namespaces. */
  lemma EventKeepsExits(env: Env, kv: Store, e: Event)
    requires RegistryInvariant(env, kv) && ExitsInvariant(kv) && EventExec(env, kv, e).Done?
    ensures ExitsInvariant(EventExec(env, kv, e).kv)
  {
    var kv' := EventExec(env, kv, e).kv;
    if e.Act? && e.action.Exit? {
      ExitKeepsInvariant(env, kv, e.actor, e.action.exit, e.action.epoch, e.action.opCode);
    } else {
      EventKeepsInvariant(env, kv, e);
      forall epoch: uint64
        ensures ExitsOf(kv', epoch) == ExitsOf(kv, epoch)
      {
        OthersKeepExits(env, kv, e, epoch);
      }
      assert forall ns :: ns in RegistryOf(kv) ==> ns in RegistryOf(kv');
    }
  }

  lemma {:induction false} ReplayKeepsExits(env: Env, kv: Store, events: seq<Event>)
    requires RegistryInvariant(env, kv) && ExitsInvariant(kv) && Replay(env, kv, events).Done?
    ensures ExitsInvariant(Replay(env, kv, events).kv)
    decreases events
  {
    if events != [] {
      EventKeepsInvariant(env, kv, events[0]);
      EventKeepsExits(env, kv, events[0]);
      ReplayKeepsExits(env, EventExec(env, kv, events[0]).kv, events[1..]);
    }
  }

  /** After any chain of blocks every exit list is a set of registered namespaces tagged with its epoch. */
  lemma ChainKeepsExits(env: Env, kv: Store, blocks: seq<Block>)
    requires RegistryInvariant(env, kv) && ExitsInvariant(kv)
    ensures ExitsInvariant(ApplyChain(env, kv, blocks))
  {
    ChainIsReplay(env, kv, blocks);
    ReplayKeepsExits(env, kv, ChainEvents(env, kv, blocks));
  }

  // ---------- whose exits they are ----------

  lemma ExitMovesOne(
    env: Env, kv: Store, actor: Address, info: EpochInfo, epoch: uint64, op: int, ns: Namespace, e: uint64)
    requires ExitsInvariant(kv) && EpochExitExec(env, Everything, kv, actor, info, epoch, op).Done?
    ensures IsAuthority(kv, actor, info.namespace)
    ensures (ns in ExitSet(EpochExitExec(env, Everything, kv, actor, info, epoch, op).kv, e)) != (ns in ExitSet(kv, e)) ==>
      ns == info.namespace && e == epoch
  {
    assert GoodExits(ExitsOf(kv, epoch), epoch, RegistryOf(kv));
    if op == CREATE_EXIT {
      CreateInserts(env, kv, actor, info, epoch);
    } else {
      DeleteRemoves(env, kv, actor, info, epoch);
    }
  }

  /** An event that moves a rollup in or out of the exits of an epoch is an epoch exit signed by its authority. */
  lemma OnlyAuthorityExits(env: Env, kv: Store, e: Event, ns: Namespace, epoch: uint64)
    requires RegistryInvariant(env, kv) && ExitsInvariant(kv) && EventExec(env, kv, e).Done?
    requires (ns in ExitSet(kv, epoch)) != (ns in ExitSet(EventExec(env, kv, e).kv, epoch))
    ensures e.Act? && e.action.Exit? && e.action.epoch == epoch && e.action.exit.namespace == ns
    ensures IsAuthority(kv, e.actor, ns)
  {
    if e.Act? && e.action.Exit? {
      ExitMovesOne(env, kv, e.actor, e.action.exit, e.action.epoch, e.action.opCode, ns, epoch);
    } else {
      OthersKeepExits(env, kv, e, epoch);
    }
  }

  /** Somewhere in the run, `signer` signs an epoch exit of ns. */
  ghost predicate SignsExitFor(events: seq<Event>, signer: Address, ns: Namespace) {
    exists i :: 0 <= i < |events| && events[i].Act? && events[i].action.Exit?
      && events[i].action.exit.namespace == ns && events[i].actor == signer
  }

  lemma {:induction false} ReplayExitCustody(env: Env, kv: Store, events: seq<Event>, ns: Namespace, epoch: uint64)
    requires RegistryInvariant(env, kv) && ExitsInvariant(kv) && Replay(env, kv, events).Done?
    requires InfoOf(kv, ns).Some?
    requires !SignsFor(events, InfoOf(kv, ns).value.authority, ns)
    requires !SignsExitFor(events, InfoOf(kv, ns).value.authority, ns)
    ensures ns in ExitSet(Replay(env, kv, events).kv, epoch) <==> ns in ExitSet(kv, epoch)
    decreases events
  {
    if events != [] {
      var s := EventExec(env, kv, events[0]).kv;
      EventKeepsInvariant(env, kv, events[0]);
      EventKeepsExits(env, kv, events[0]);
      if (ns in ExitSet(kv, epoch)) != (ns in ExitSet(s, epoch)) {
        OnlyAuthorityExits(env, kv, events[0], ns, epoch);
        assert false;
      }
      if InfoOf(s, ns) != InfoOf(kv, ns) {
        OnlyAuthorityChanges(env, kv, events[0], ns);
        assert false;
      }
      assert forall i :: 0 <= i < |events[1..]| ==> events[1..][i] == events[i + 1];
      ReplayExitCustody(env, s, events[1..], ns, epoch);
    }
  }

  /**
    A registered rollup whose stored authority signs neither a registration nor an epoch exit of it is,
    after any chain of blocks, out of exactly the epochs it was out of before.
   */
  lemma ExitCustody(env: Env, kv: Store, blocks: seq<Block>, ns: Namespace, epoch: uint64)
    requires RegistryInvariant(env, kv) && ExitsInvariant(kv) && InfoOf(kv, ns).Some?
    requires !SignsFor(ChainEvents(env, kv, blocks), InfoOf(kv, ns).value.authority, ns)
    requires !SignsExitFor(ChainEvents(env, kv, blocks), InfoOf(kv, ns).value.authority, ns)
    ensures ns in ExitSet(ApplyChain(env, kv, blocks), epoch) <==> ns in ExitSet(kv, epoch)
  {
    ChainIsReplay(env, kv, blocks);
    ReplayExitCustody(env, kv, ChainEvents(env, kv, blocks), ns, epoch);
  }
}
