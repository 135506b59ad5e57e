/**
  rollup_registry/registry.go and the part of controller.go's `Accepted` that feeds it: the in-memory
  cache of rollups always agrees with the infos on chain.
 */
module RollupCache {
  import opened Base
  import opened ChainState
  import opened Actions
  import opened ActionMethods
  import opened Blocks
  import opened Rollups

  /** `RollupInfo.ID`: an injective function of the namespace. */
  datatype RollupID = RollupID(namespace: Namespace)

  type Cache = map<RollupID, RollupInfo>

  // ---------- the cache as a value ----------

  function IDOf(info: RollupInfo): RollupID {
    RollupID(info.namespace)
  }

  /** The last of the infos for the namespace. */
  function LastInfo(infos: seq<RollupInfo>, ns: Namespace): Option<RollupInfo> {
    if infos == [] then None
    else
      var last := infos[|infos| - 1];
      if last.namespace == ns then Some(last) else LastInfo(infos[..|infos| - 1], ns)
  }

  /** The entry for id once the infos have been put in: the last new one, else the old one. */
  function Entry(before: Cache, infos: seq<RollupInfo>, id: RollupID): Option<RollupInfo> {
    if LastInfo(infos, id.namespace).Some? then LastInfo(infos, id.namespace)
    else if id in before then Some(before[id])
    else None
  }

  /** What `Update` makes of a cache: every entry, unless it has exited by the current epoch. */
  function Updated(before: Cache, current: int, infos: seq<RollupInfo>): Cache {
    map id | id in before.Keys + (set i | 0 <= i < |infos| :: IDOf(infos[i]))
             && Entry(before, infos, id).Some? && !Entry(before, infos, id).value.Exited(current)
      :: Entry(before, infos, id).value
  }

  lemma {:induction false} LastInfoMember(infos: seq<RollupInfo>, ns: Namespace)
    ensures LastInfo(infos, ns).Some? ==> exists i :: 0 <= i < |infos| && infos[i] == LastInfo(infos, ns).value
    ensures LastInfo(infos, ns).Some? ==> LastInfo(infos, ns).value.namespace == ns
  {
    if infos != [] {
      LastInfoMember(infos[..|infos| - 1], ns);
    }
  }

  /** The updated cache, entry by entry. */
  lemma UpdatedEntry(before: Cache, current: int, infos: seq<RollupInfo>, id: RollupID)
    ensures id in Updated(before, current, infos) <==>
      Entry(before, infos, id).Some? && !Entry(before, infos, id).value.Exited(current)
    ensures id in Updated(before, current, infos) ==>
      Updated(before, current, infos)[id] == Entry(before, infos, id).value
  {
    LastInfoMember(infos, id.namespace);
  }

  lemma IsUpdated(before: Cache, current: int, infos: seq<RollupInfo>, after: Cache)
    requires forall id: RollupID :: id in after <==>
      Entry(before, infos, id).Some? && !Entry(before, infos, id).value.Exited(current)
    requires forall id: RollupID :: id in after ==> Some(after[id]) == Entry(before, infos, id)
    ensures after == Updated(before, current, infos)
  {
    forall id: RollupID
      ensures id in after <==> id in Updated(before, current, infos)
      ensures id in after ==> after[id] == Updated(before, current, infos)[id]
    {
      UpdatedEntry(before, current, infos, id);
    }
  }

  /** Each entry sits under the id of its own namespace. */
  ghost predicate Keyed(cache: Cache) {
    forall id :: id in cache ==> IDOf(cache[id]) == id
  }

  function Infos(regs: seq<RollupRegistration>): (infos: seq<RollupInfo>)
    reads regs
    ensures |infos| == |regs|
    ensures forall i :: 0 <= i < |regs| ==> infos[i] == regs[i].info
  {
    seq(|regs|, i requires 0 <= i < |regs| reads regs => regs[i].info)
  }

  /** The cache keeps pointers into the accepted registration actions. */
  class RollupRegistry {
    var rollups: map<RollupID, RollupRegistration>

    constructor ()
      ensures rollups == map[]
    {
      rollups := map[];
    }

    ghost function View(): (cache: Cache)
      reads this, rollups.Values
      ensures cache.Keys == rollups.Keys
    {
      map id | id in rollups :: rollups[id].info
    }

    /** New infos replace old ones in order; then what has exited by the current epoch is dropped. */
    method Update(current: uint64, regs: seq<RollupRegistration>)
      modifies this
      ensures View() == Updated(old(View()), current, old(Infos(regs)))
      ensures rollups.Values <= old(rollups.Values) + set r | r in regs
    {
      ghost var before, infos := View(), Infos(regs);
      PutAll(regs);
      DropExited(current);
      IsUpdated(before, current, infos, View());
    }

    method PutAll(regs: seq<RollupRegistration>)
      modifies this
      ensures forall id: RollupID :: id in rollups <==> Entry(old(View()), Infos(regs), id).Some?
      ensures forall id: RollupID :: id in rollups ==> Some(rollups[id].info) == Entry(old(View()), Infos(regs), id)
      ensures rollups.Values <= old(rollups.Values) + set r | r in regs
    {
      ghost var before, infos := View(), Infos(regs);
      for i := 0 to |regs|
        invariant rollups.Values <= old(rollups.Values) + set r | r in regs
        invariant forall id: RollupID :: id in rollups <==> Entry(before, infos[..i], id).Some?
        invariant forall id: RollupID :: id in rollups ==> Some(rollups[id].info) == Entry(before, infos[..i], id)
      {
        assert infos[..i + 1][..i] == infos[..i];
        rollups := rollups[IDOf(regs[i].info) := regs[i]];
      }
      assert infos[..|regs|] == infos;
    }

    method DropExited(current: uint64)
      modifies this
      ensures forall id :: id in rollups <==> id in old(rollups) && !old(rollups)[id].info.Exited(current)
      ensures forall id :: id in rollups ==> rollups[id] == old(rollups)[id]
      ensures rollups.Values <= old(rollups.Values)
    {
      var todo := rollups.Keys;
      while todo != {}
        invariant todo <= old(rollups).Keys
        invariant forall id :: id in rollups <==>
          id in old(rollups) && (id in todo || !old(rollups)[id].info.Exited(current))
        invariant forall id :: id in rollups ==> rollups[id] == old(rollups)[id]
        decreases todo
      {
        var id :| id in todo;
        if rollups[id].info.Exited(current) {
          rollups := rollups - {id};
        }
        todo := todo - {id};
      }
    }

    /** The cached rollups that take part in the epoch, once each, in no particular order. */
    method RollupsValidAtEpoch(epoch: uint64) returns (ret: seq<RollupRegistration>)
      requires Keyed(View())
      ensures forall r :: r in ret <==> r in rollups.Values && r.info.ValidAtEpoch(epoch)
      ensures forall i, j :: 0 <= i < j < |ret| ==> ret[i].info.namespace != ret[j].info.namespace
    {
      ret := [];
      var todo := rollups.Keys;
      while todo != {}
        invariant todo <= rollups.Keys
        invariant forall r :: r in ret <==>
          exists id :: id in rollups && id !in todo && rollups[id] == r && r.info.ValidAtEpoch(epoch)
        invariant forall i :: 0 <= i < |ret| ==> RollupID(ret[i].info.namespace) !in todo
        invariant forall i, j :: 0 <= i < j < |ret| ==> ret[i].info.namespace != ret[j].info.namespace
        decreases todo
      {
        var id :| id in todo;
        todo := todo - {id};
        assert View()[id] == rollups[id].info;
        if !rollups[id].info.ValidAtEpoch(epoch) {
          continue;
        }
        ret := ret + [rollups[id]];
      }
    }
  }

  // ---------- what `Accepted` collects ----------

  /** The info an action holds once executed, if it is a registration. */
  function Rewritten(env: Env, sc: Scope, kv: Store, h: Height, actor: Address, a: Action): seq<RollupInfo> {
    if a.Register? then [RegisterExec(env, sc, kv, h, actor, a.reg).info] else []
  }

  /** The infos of the registrations among successful actions, as `Execute` left them. */
  function CollectActions(env: Env, sc: Scope, kv: Store, h: Height, actor: Address, actions: seq<Action>): seq<RollupInfo>
    decreases actions
  {
    if actions == [] then []
    else
      Rewritten(env, sc, kv, h, actor, actions[0])
      + CollectActions(env, sc, ActionExec(env, sc, kv, h, actor, actions[0]).kv, h, actor, actions[1..])
  }

  /** The infos collected from a transaction: none unless it succeeded. */
  function CollectTx(env: Env, kv: Store, h: Height, tx: Tx): seq<RollupInfo> {
    var sc := Only(TxKeys(tx));
    if ApplyTx(env, kv, h, tx).verdict.Success?
    then CollectActions(env, sc, DeductExec(env, sc, kv, tx.sponsor, tx.fee).kv, h, tx.actor, tx.actions)
    else []
  }

  function CollectTxs(env: Env, kv: Store, h: Height, txs: seq<Tx>): seq<RollupInfo>
    decreases txs
  {
    if txs == [] then []
    else CollectTx(env, kv, h, txs[0]) + CollectTxs(env, ApplyTx(env, kv, h, txs[0]).kv, h, txs[1..])
  }

  // ---------- collected infos are the infos written ----------

  lemma {:induction false} LastInfoConcat(a: seq<RollupInfo>, b: seq<RollupInfo>, ns: Namespace)
    ensures LastInfo(a + b, ns) == if LastInfo(b, ns).Some? then LastInfo(b, ns) else LastInfo(a, ns)
  {
    if b == [] {
      assert a + b == a;
    } else {
      assert (a + b)[..|a + b| - 1] == a + b[..|b| - 1];
      LastInfoConcat(a, b[..|b| - 1], ns);
    }
  }

  /** From kv to kv', the infos on chain changed to the last of `infos`, namespace by namespace. */
  ghost predicate Written(kv: Store, infos: seq<RollupInfo>, kv': Store) {
    forall ns :: InfoOf(kv', ns) == if LastInfo(infos, ns).Some? then LastInfo(infos, ns) else InfoOf(kv, ns)
  }

  lemma WrittenConcat(kv: Store, a: seq<RollupInfo>, s: Store, b: seq<RollupInfo>, kv': Store)
    requires Written(kv, a, s) && Written(s, b, kv')
    ensures Written(kv, a + b, kv')
  {
    forall ns
      ensures InfoOf(kv', ns) == if LastInfo(a + b, ns).Some? then LastInfo(a + b, ns) else InfoOf(kv, ns)
    {
      LastInfoConcat(a, b, ns);
    }
  }

  lemma EventWritten(env: Env, kv: Store, e: Event)
    requires EventExec(env, kv, e).Done?
    ensures Written(kv, if Registers(e).Some?
                        then [RegisterExec(env, Everything, kv, e.height, e.actor, e.action.reg).info] else [],
                    EventExec(env, kv, e).kv)
  {
    if Registers(e).Some? {
      RegisterEffect(env, kv, e.height, e.actor, e.action.reg);
      var info := RegisterExec(env, Everything, kv, e.height, e.actor, e.action.reg).info;
      assert forall ns :: LastInfo([info], ns) == if info.namespace == ns then Some(info) else LastInfo([info][..0], ns);
      assert [info][..0] == [];
    } else {
      OthersKeepRollups(env, kv, e);
    }
  }

  lemma {:induction false} ActionsWritten(env: Env, sc: Scope, kv: Store, h: Height, actor: Address, actions: seq<Action>)
    requires Covers(sc, ActionsKeys(actor, actions))
    requires ActionsExec(env, sc, kv, h, actor, actions).Done?
    ensures Written(kv, CollectActions(env, sc, kv, h, actor, actions), ActionsExec(env, sc, kv, h, actor, actions).kv)
    decreases actions
  {
    if actions != [] {
      var a := actions[0];
      JoinCovers(sc, StateKeys(actor, a), ActionsKeys(actor, actions[1..]));
      DeclaredKeysSuffice(env, sc, kv, h, actor, a);
      if a.Register? {
        RegisterKeysSuffice(env, sc, kv, h, actor, a.reg);
      }
      EventWritten(env, kv, Act(h, actor, a));
      var s := ActionExec(env, sc, kv, h, actor, a).kv;
      ActionsWritten(env, sc, s, h, actor, actions[1..]);
      WrittenConcat(kv, Rewritten(env, sc, kv, h, actor, a), s,
                    CollectActions(env, sc, s, h, actor, actions[1..]), ActionsExec(env, sc, kv, h, actor, actions).kv);
    }
  }

  lemma TxWritten(env: Env, kv: Store, h: Height, tx: Tx)
    ensures Written(kv, CollectTx(env, kv, h, tx), ApplyTx(env, kv, h, tx).kv)
  {
    var sc := Only(TxKeys(tx));
    JoinCovers(sc, SponsorStateKeys(tx.sponsor), ActionsKeys(tx.actor, tx.actions));
    SponsorKeysSuffice(env, sc, kv, tx.sponsor, tx.fee);
    var paid := DeductExec(env, sc, kv, tx.sponsor, tx.fee);
    if paid.Done? {
      EventWritten(env, kv, Fee(tx.sponsor, tx.fee));
      if ApplyTx(env, kv, h, tx).verdict.Success? {
        ActionsWritten(env, sc, paid.kv, h, tx.actor, tx.actions);
      }
    }
  }

  /**
    The infos that `Accepted` collects from a block, after `Execute` has rewritten them in place, are
    the infos the block wrote: for each namespace the last one collected is the one on chain.
   */
  lemma {:induction false} BlockWritten(env: Env, kv: Store, h: Height, txs: seq<Tx>)
    ensures Written(kv, CollectTxs(env, kv, h, txs), ApplyTxs(env, kv, h, txs))
    decreases txs
  {
    if txs != [] {
      var s := ApplyTx(env, kv, h, txs[0]).kv;
      TxWritten(env, kv, h, txs[0]);
      BlockWritten(env, s, h, txs[1..]);
      WrittenConcat(kv, CollectTx(env, kv, h, txs[0]), s, CollectTxs(env, s, h, txs[1..]), ApplyTxs(env, kv, h, txs));
    }
  }

  // ---------- cache agreement ----------

  /** The cache holds exactly the infos on chain that have not exited by epoch c. */
  ghost predicate Agrees(cache: Cache, kv: Store, c: int) {
    forall ns ::
      && (RollupID(ns) in cache <==> InfoOf(kv, ns).Some? && !InfoOf(kv, ns).value.Exited(c))
      && (RollupID(ns) in cache ==> cache[RollupID(ns)] == InfoOf(kv, ns).value)
  }

  /** Accepting a block of a later epoch keeps the agreement: pruning loses nothing that still matters. */
  lemma UpdateAgrees(env: Env, cache: Cache, kv: Store, c: int, h: Height, txs: seq<Tx>)
    requires Agrees(cache, kv, c) && c <= Epoch(h, env)
    ensures Agrees(Updated(cache, Epoch(h, env), CollectTxs(env, kv, h, txs)), ApplyTxs(env, kv, h, txs), Epoch(h, env))
  {
    var infos, kv' := CollectTxs(env, kv, h, txs), ApplyTxs(env, kv, h, txs);
    BlockWritten(env, kv, h, txs);
    forall ns
      ensures var after := Updated(cache, Epoch(h, env), infos);
        && (RollupID(ns) in after <==> InfoOf(kv', ns).Some? && !InfoOf(kv', ns).value.Exited(Epoch(h, env)))
        && (RollupID(ns) in after ==> after[RollupID(ns)] == InfoOf(kv', ns).value)
    {
      UpdatedEntry(cache, Epoch(h, env), infos, RollupID(ns));
    }
  }

  /** The cache after accepting the blocks one by one. */
  function CacheAfter(env: Env, cache: Cache, kv: Store, blocks: seq<Block>): Cache
    decreases blocks
  {
    if blocks == [] then cache
    else
      var b := blocks[0];
      CacheAfter(env, Updated(cache, Epoch(b.height, env), CollectTxs(env, kv, b.height, b.txs)),
                 ApplyTxs(env, kv, b.height, b.txs), blocks[1..])
  }

  /** After any run of blocks of increasing height, the cache is the on-chain infos not exited by the last epoch. */
  lemma {:induction false} CacheAgreement(env: Env, cache: Cache, kv: Store, blocks: seq<Block>, c: int)
    requires Agrees(cache, kv, c) && Increasing(blocks)
    requires blocks != [] ==> c <= Epoch(blocks[0].height, env)
    ensures var last := if blocks == [] then c else Epoch(blocks[|blocks| - 1].height, env);
      Agrees(CacheAfter(env, cache, kv, blocks), ApplyChain(env, kv, blocks), last)
    decreases blocks
  {
    if blocks != [] {
      var b := blocks[0];
      UpdateAgrees(env, cache, kv, c, b.height, b.txs);
      if |blocks| > 1 {
        EpochMonotone(env, b.height, blocks[1].height);
      }
      CacheAgreement(env, Updated(cache, Epoch(b.height, env), CollectTxs(env, kv, b.height, b.txs)),
                     ApplyTxs(env, kv, b.height, b.txs), blocks[1..], Epoch(b.height, env));
    }
  }

  /**
    The cache points into executed actions, so a sibling block that executes a cached action again, in
    a state kv0 of its own, rewrites the cached info. The cache then still agrees with the accepted chain exactly
    when kv0 has the epochs that the action takes from the state: both for an UPDATE, the start for an EXIT.
   */
  lemma SiblingExecution(
    env: Env, cache: Cache, kv: Store, c: int, r: Registration,
    sc0: Scope, kv0: Store, h0: uint64, actor0: Address)
    requires Agrees(cache, kv, c)
    requires RollupID(r.namespace) in cache && cache[RollupID(r.namespace)] == r.info
    requires RegisterExec(env, sc0, kv0, h0, actor0, r).exec.Done?
    ensures r.opCode != CREATE_ROLLUP ==> InfoOf(kv0, r.namespace).Some?
    ensures Agrees(cache[RollupID(r.namespace) := RegisterExec(env, sc0, kv0, h0, actor0, r).info], kv, c) <==>
      || r.opCode == CREATE_ROLLUP
      || (&& InfoOf(kv0, r.namespace).value.startEpoch == r.info.startEpoch
          && (r.opCode == UPDATE_ROLLUP ==> InfoOf(kv0, r.namespace).value.exitEpoch == r.info.exitEpoch))
  {
    var id, info := RollupID(r.namespace), RegisterExec(env, sc0, kv0, h0, actor0, r).info;
    var after := cache[id := info];
    if info == r.info {
      assert after == cache;
    } else {
      assert InfoOf(kv, r.namespace) == Some(r.info);
      assert after[id] != InfoOf(kv, r.namespace).value;
    }
  }

  /** A node starts with an empty cache on a chain without rollups. */
  lemma EmptyCacheAgrees(kv: Store, c: int)
    requires forall ns :: InfoOf(kv, ns).None?
    ensures Agrees(map[], kv, c)
  {
  }

  /**
    What an agreeing cache answers about epoch e: the participants of e that have not exited by the
    current epoch, which for the current and later epochs are all of them.
   */
  lemma ValidInCache(env: Env, cache: Cache, kv: Store, c: int, ns: Namespace, e: int)
    requires RegistryInvariant(env, kv) && Agrees(cache, kv, c)
    ensures RollupID(ns) in cache && cache[RollupID(ns)].ValidAtEpoch(e) <==>
      Participates(kv, ns, e) && (e >= c || !InfoOf(kv, ns).value.Exited(c))
  {
    assert RollupID(ns) in cache <==> InfoOf(kv, ns).Some? && !InfoOf(kv, ns).value.Exited(c);
    assert ns in RegistryOf(kv) <==> InfoOf(kv, ns).Some?;
  }

  lemma AgreeingIsKeyed(env: Env, cache: Cache, kv: Store, c: int)
    requires RegistryInvariant(env, kv) && Agrees(cache, kv, c)
    ensures Keyed(cache)
  {
    forall id | id in cache
      ensures IDOf(cache[id]) == id
    {
      assert RollupID(id.namespace) in cache;
      assert id.namespace in RegistryOf(kv);
    }
  }
}
