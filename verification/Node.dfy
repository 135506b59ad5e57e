/**
  A node taking in blocks: it executes the action objects of a block in place, hands them to
  `Accepted`, and its cache of rollups agrees with the chain after every block.
 */
module Node {
  import opened Base
  import opened ChainState
  import opened Actions
  import opened ActionMethods
  import opened Blocks
  import opened Rollups
  import opened Supply
  import opened RollupCache
  import opened Reachable

  /** An action object of an accepted block. */
  datatype ActionRef =
    | TransferRef(transfer: TransferAction)
    | AuctionRef(auction: AuctionAction)
    | RegisterRef(registration: RollupRegistration)
    | ExitRef(exit: EpochExitAction)
    | SequencerMsgRef

  datatype TxRef = TxRef(id: ID, actor: Address, sponsor: Address, fee: uint64, actions: seq<ActionRef>)

  ghost function Objects(actions: seq<ActionRef>): set<RollupRegistration> {
    set i | 0 <= i < |actions| && actions[i].RegisterRef? :: actions[i].registration
  }

  /** The infos the registrations among the actions hold now, in order. */
  ghost function InfosOf(actions: seq<ActionRef>): seq<RollupInfo>
    reads Objects(actions)
  {
    if actions == [] then []
    else
      assert Objects(actions[1..]) <= Objects(actions);
      InfoHeld(actions[0]) + InfosOf(actions[1..])
  }

  ghost function InfoHeld(a: ActionRef): seq<RollupInfo>
    reads if a.RegisterRef? then {a.registration} else {}
  {
    if a.RegisterRef? then [a.registration.info] else []
  }

  /** Every registration object occurs once: each is decoded from its own bytes. */
  ghost predicate Distinct(actions: seq<ActionRef>) {
    forall i, j :: 0 <= i < j < |actions| && actions[i].RegisterRef? && actions[j].RegisterRef? ==>
      actions[i].registration != actions[j].registration
  }

  function ActionValue(a: ActionRef): Action
    reads if a.RegisterRef? then {a.registration} else {}
  {
    match a
    case TransferRef(t) => Transfer(t.to, t.value, t.memo)
    case AuctionRef(b) => Auction(b.info, b.publicKey, b.signature)
    case RegisterRef(r) => Register(r.Value())
    case ExitRef(e) => Exit(e.info, e.epoch, e.opCode)
    case SequencerMsgRef => SequencerMsg
  }

  function Values(actions: seq<ActionRef>): (values: seq<Action>)
    reads Objects(actions)
    ensures |values| == |actions|
    ensures forall i :: 0 <= i < |actions| ==> values[i] == ActionValue(actions[i])
  {
    seq(|actions|, i requires 0 <= i < |actions| reads Objects(actions) => ActionValue(actions[i]))
  }

  method ExecuteAction(mu: StateView, h: Height, actor: Address, a: ActionRef) returns (err: Option<Error>)
    modifies mu`kv, if a.RegisterRef? then {a.registration} else {}
    ensures Outcome(mu.kv, err) == ActionExec(mu.env, mu.scope, old(mu.kv), h, actor, old(ActionValue(a)))
    ensures InfoHeld(a) == Rewritten(mu.env, mu.scope, old(mu.kv), h, actor, old(ActionValue(a)))
  {
    match a {
      case TransferRef(t) => err := t.Execute(mu, actor);
      case AuctionRef(b) => err := b.Execute(mu, h, actor);
      case RegisterRef(r) => err := r.Execute(mu, h, actor);
      case ExitRef(e) => err := e.Execute(mu, actor);
      case SequencerMsgRef => err := None;
    }
  }

  lemma TailOf(actions: seq<ActionRef>)
    requires actions != [] && Distinct(actions)
    ensures Distinct(actions[1..])
    ensures Values(actions)[0] == ActionValue(actions[0]) && Values(actions)[1..] == Values(actions[1..])
    ensures Objects(actions[1..]) <= Objects(actions)
    ensures actions[0].RegisterRef? ==> actions[0].registration in Objects(actions) - Objects(actions[1..])
  {
    assert forall i :: 0 <= i < |actions[1..]| ==> actions[1..][i] == actions[i + 1];
  }

  /** The actions of a transaction in order, up to the first that fails. */
  method ExecuteActions(mu: StateView, h: Height, actor: Address, actions: seq<ActionRef>) returns (err: Option<Error>)
    requires Distinct(actions)
    modifies mu`kv, Objects(actions)
    ensures Outcome(mu.kv, err) == ActionsExec(mu.env, mu.scope, old(mu.kv), h, actor, old(Values(actions)))
    ensures err.None? ==>
      InfosOf(actions) == CollectActions(mu.env, mu.scope, old(mu.kv), h, actor, old(Values(actions)))
    decreases actions
  {
    if actions == [] {
      return None;
    }
    TailOf(actions);
    err := ExecuteAction(mu, h, actor, actions[0]);
    if err.Some? {
      return;
    }
    err := ExecuteActions(mu, h, actor, actions[1..]);
  }

  function TxValue(tx: TxRef): Tx
    reads Objects(tx.actions)
  {
    Tx(tx.id, tx.actor, tx.sponsor, tx.fee, Values(tx.actions))
  }

  /** One transaction: fee, actions, and the rollback of the actions if one fails. */
  method ExecuteTx(env: Env, kv: Store, h: Height, tx: TxRef) returns (kv': Store, verdict: Verdict)
    requires Distinct(tx.actions)
    modifies Objects(tx.actions)
    ensures TxResult(kv', verdict) == ApplyTx(env, kv, h, old(TxValue(tx)))
    ensures verdict.Success? ==> InfosOf(tx.actions) == CollectTx(env, kv, h, old(TxValue(tx)))
  {
    var mu := new StateView(env, Only(TxKeys(TxValue(tx))), kv);
    var err := Deduct(mu, tx.sponsor, tx.fee);
    if err.Some? {
      return kv, Invalid;
    }
    var paid := mu.kv;
    err := ExecuteActions(mu, h, tx.actor, tx.actions);
    if err.Some? {
      return paid, Failed(err.value);
    }
    return mu.kv, Success;
  }

  // ---------- blocks ----------

  ghost function BlockObjects(txs: seq<TxRef>): set<RollupRegistration> {
    set i, r | 0 <= i < |txs| && r in Objects(txs[i].actions) :: r
  }

  ghost predicate DistinctBlock(txs: seq<TxRef>) {
    && (forall i :: 0 <= i < |txs| ==> Distinct(txs[i].actions))
    && (forall i, j :: 0 <= i < j < |txs| ==> Objects(txs[i].actions) !! Objects(txs[j].actions))
  }

  ghost function TxValues(txs: seq<TxRef>): (values: seq<Tx>)
    reads BlockObjects(txs)
    ensures |values| == |txs|
    ensures forall i :: 0 <= i < |txs| ==> values[i] == TxValue(txs[i])
  {
    seq(|txs|, i requires 0 <= i < |txs| reads BlockObjects(txs) => TxValue(txs[i]))
  }

  lemma BlockTail(txs: seq<TxRef>)
    requires txs != [] && DistinctBlock(txs)
    ensures DistinctBlock(txs[1..])
    ensures TxValues(txs)[0] == TxValue(txs[0]) && TxValues(txs)[1..] == TxValues(txs[1..])
    ensures BlockObjects(txs) == Objects(txs[0].actions) + BlockObjects(txs[1..])
    ensures Objects(txs[0].actions) !! BlockObjects(txs[1..])
  {
    assert forall i :: 0 <= i < |txs[1..]| ==> txs[1..][i] == txs[i + 1];
  }

  /** The infos that the registrations of the successful transactions hold now, in order. */
  ghost function BlockInfos(txs: seq<TxRef>, results: seq<Verdict>): seq<RollupInfo>
    requires |txs| == |results|
    reads BlockObjects(txs)
  {
    if txs == [] then []
    else
      assert BlockObjects(txs[1..]) <= BlockObjects(txs);
      (if results[0].Success? then InfosOf(txs[0].actions) else []) + BlockInfos(txs[1..], results[1..])
  }

  method ExecuteTxs(env: Env, kv: Store, h: Height, txs: seq<TxRef>) returns (kv': Store, results: seq<Verdict>)
    requires DistinctBlock(txs)
    modifies BlockObjects(txs)
    ensures kv' == ApplyTxs(env, kv, h, old(TxValues(txs)))
    ensures |results| == |txs|
    ensures BlockInfos(txs, results) == CollectTxs(env, kv, h, old(TxValues(txs)))
    decreases txs
  {
    if txs == [] {
      return kv, [];
    }
    BlockTail(txs);
    var s, verdict := ExecuteTx(env, kv, h, txs[0]);
    var rest;
    kv', rest := ExecuteTxs(env, s, h, txs[1..]);
    results := [verdict] + rest;
    assert results[1..] == rest;
  }

  datatype BlockRef = BlockRef(height: Height, txs: seq<TxRef>)

  ghost function ChainObjects(blocks: seq<BlockRef>): set<RollupRegistration> {
    set i, r | 0 <= i < |blocks| && r in BlockObjects(blocks[i].txs) :: r
  }

  /** Every block of the chain has action objects of its own. */
  ghost predicate DistinctChain(blocks: seq<BlockRef>) {
    && (forall i :: 0 <= i < |blocks| ==> DistinctBlock(blocks[i].txs))
    && (forall i, j :: 0 <= i < j < |blocks| ==> BlockObjects(blocks[i].txs) !! BlockObjects(blocks[j].txs))
  }

  ghost function BlockValue(b: BlockRef): Block
    reads BlockObjects(b.txs)
  {
    Block(b.height, TxValues(b.txs))
  }

  ghost function ChainValues(blocks: seq<BlockRef>): (values: seq<Block>)
    reads ChainObjects(blocks)
    ensures |values| == |blocks|
    ensures forall i :: 0 <= i < |blocks| ==> values[i] == BlockValue(blocks[i])
  {
    seq(|blocks|, i requires 0 <= i < |blocks| reads ChainObjects(blocks) => BlockValue(blocks[i]))
  }

  lemma ChainTail(blocks: seq<BlockRef>)
    requires blocks != [] && DistinctChain(blocks)
    ensures DistinctChain(blocks[1..])
    ensures ChainValues(blocks)[0] == BlockValue(blocks[0]) && ChainValues(blocks)[1..] == ChainValues(blocks[1..])
    ensures ChainObjects(blocks) == BlockObjects(blocks[0].txs) + ChainObjects(blocks[1..])
    ensures BlockObjects(blocks[0].txs) !! ChainObjects(blocks[1..])
  {
    assert forall i :: 0 <= i < |blocks[1..]| ==> blocks[1..][i] == blocks[i + 1];
  }

  // ---------- controller.go: Accepted ----------

  function RegsOf(a: ActionRef): seq<RollupRegistration> {
    if a.RegisterRef? then [a.registration] else []
  }

  /** The registration objects among the actions, in order. */
  function Regs(actions: seq<ActionRef>): seq<RollupRegistration> {
    if actions == [] then [] else RegsOf(actions[0]) + Regs(actions[1..])
  }

  /** The registration objects of the successful transactions, in order. */
  function BlockRegs(txs: seq<TxRef>, results: seq<Verdict>): seq<RollupRegistration>
    requires |txs| == |results|
  {
    if txs == [] then []
    else (if results[0].Success? then Regs(txs[0].actions) else []) + BlockRegs(txs[1..], results[1..])
  }

  /** The collecting loops of `Accepted`. */
  method CollectRollups(txs: seq<TxRef>, results: seq<Verdict>) returns (rollups: seq<RollupRegistration>)
    requires |txs| == |results|
    ensures rollups == BlockRegs(txs, results)
  {
    rollups := [];
    assert txs[0..] == txs && results[0..] == results;
    for i := 0 to |txs|
      invariant rollups + BlockRegs(txs[i..], results[i..]) == BlockRegs(txs, results)
    {
      BlockRegsStep(txs, results, i, rollups);
      if results[i].Success? {
        var regs := CollectRegistrations(txs[i].actions);
        rollups := rollups + regs;
      }
    }
  }

  lemma BlockRegsStep(txs: seq<TxRef>, results: seq<Verdict>, i: nat, rollups: seq<RollupRegistration>)
    requires |txs| == |results| && i < |txs|
    ensures rollups + BlockRegs(txs[i..], results[i..])
         == (if results[i].Success? then rollups + Regs(txs[i].actions) else rollups) + BlockRegs(txs[i + 1..], results[i + 1..])
  {
    assert txs[i..][1..] == txs[i + 1..] && results[i..][1..] == results[i + 1..];
  }

  method CollectRegistrations(actions: seq<ActionRef>) returns (rollups: seq<RollupRegistration>)
    ensures rollups == Regs(actions)
  {
    rollups := [];
    assert actions[0..] == actions;
    for j := 0 to |actions|
      invariant rollups + Regs(actions[j..]) == Regs(actions)
    {
      RegsStep(actions, j, rollups);
      if actions[j].RegisterRef? {
        rollups := rollups + [actions[j].registration];
      }
    }
  }

  lemma RegsStep(actions: seq<ActionRef>, j: nat, rollups: seq<RollupRegistration>)
    requires j < |actions|
    ensures rollups + Regs(actions[j..])
         == (if actions[j].RegisterRef? then rollups + [actions[j].registration] else rollups) + Regs(actions[j + 1..])
  {
    assert actions[j..][1..] == actions[j + 1..];
  }

  lemma {:induction false} InfosOfRegs(actions: seq<ActionRef>)
    ensures Infos(Regs(actions)) == InfosOf(actions)
    ensures forall r :: r in Regs(actions) ==> r in Objects(actions)
  {
    if actions != [] {
      InfosOfRegs(actions[1..]);
      assert forall i :: 0 <= i < |actions[1..]| ==> actions[1..][i] == actions[i + 1];
    }
  }

  /** What the collected pointers hold is what the actions hold. */
  lemma {:induction false} InfosOfBlockRegs(txs: seq<TxRef>, results: seq<Verdict>)
    requires |txs| == |results|
    ensures Infos(BlockRegs(txs, results)) == BlockInfos(txs, results)
    ensures forall r :: r in BlockRegs(txs, results) ==> r in BlockObjects(txs)
  {
    if txs != [] {
      InfosOfRegs(txs[0].actions);
      InfosOfBlockRegs(txs[1..], results[1..]);
    }
  }

  lemma BlockAccepted(env: Env, cache: Cache, kv: Store, c: int, h: Height, txs: seq<Tx>)
    requires RegistryInvariant(env, kv) && Agrees(cache, kv, c) && c <= Epoch(h, env)
    ensures RegistryInvariant(env, ApplyTxs(env, kv, h, txs))
    ensures Agrees(Updated(cache, Epoch(h, env), CollectTxs(env, kv, h, txs)), ApplyTxs(env, kv, h, txs), Epoch(h, env))
  {
    UpdateAgrees(env, cache, kv, c, h, txs);
    TxsAreReplay(env, kv, h, txs);
    ReplayKeepsInvariant(env, kv, TxsEvents(env, kv, h, txs));
  }

  class SequencerNode {
    const env: Env
    var kv: Store
    const rollupRegistry: RollupRegistry

    constructor (env: Env, kv: Store)
      requires forall ns :: InfoOf(kv, ns).None?
      ensures this.env == env && this.kv == kv
      ensures fresh(rollupRegistry) && rollupRegistry.rollups == map[]
      ensures Agrees(rollupRegistry.View(), kv, 0)
    {
      this.env, this.kv := env, kv;
      rollupRegistry := new RollupRegistry();
    }

    /** `Accepted`, as far as the cache is concerned. */
    method Accepted(h: Height, txs: seq<TxRef>, results: seq<Verdict>)
      requires |txs| == |results|
      modifies rollupRegistry
      ensures rollupRegistry.View() == Updated(old(rollupRegistry.View()), Epoch(h, env), old(BlockInfos(txs, results)))
      ensures rollupRegistry.rollups.Values <= old(rollupRegistry.rollups.Values) + BlockObjects(txs)
    {
      InfosOfBlockRegs(txs, results);
      ghost var cache, infos := rollupRegistry.View(), Infos(BlockRegs(txs, results));
      var rollups := CollectRollups(txs, results);
      assert rollupRegistry.View() == cache && Infos(rollups) == infos;
      var currentEpoch := Epoch(h, env);
      rollupRegistry.Update(currentEpoch, rollups);
    }

    /**
      Executing and accepting a block whose action objects are its own: the cache, which keeps
      pointers into those objects, agrees with the chain again.
     */
    method AcceptBlock(h: Height, txs: seq<TxRef>, ghost current: int)
      requires DistinctBlock(txs) && BlockObjects(txs) !! rollupRegistry.rollups.Values
      requires RegistryInvariant(env, kv)
      requires current <= Epoch(h, env) && Agrees(rollupRegistry.View(), kv, current)
      modifies this`kv, rollupRegistry, BlockObjects(txs)
      ensures kv == ApplyTxs(env, old(kv), h, old(TxValues(txs)))
      ensures RegistryInvariant(env, kv)
      ensures Agrees(rollupRegistry.View(), kv, Epoch(h, env))
      ensures rollupRegistry.rollups.Values <= old(rollupRegistry.rollups.Values) + BlockObjects(txs)
    {
      ghost var values, cache, before := TxValues(txs), rollupRegistry.View(), kv;
      var results;
      kv, results := ExecuteTxs(env, kv, h, txs);
      assert rollupRegistry.View() == cache;
      assert BlockInfos(txs, results) == CollectTxs(env, before, h, values);
      Accepted(h, txs, results);
      BlockAccepted(env, cache, before, current, h, values);
    }

    /**
      The same for a whole run of blocks of increasing height: what is cached from earlier blocks is
      never among the objects that later blocks execute.
     */
    method AcceptChain(blocks: seq<BlockRef>, ghost current: int)
      requires DistinctChain(blocks) && ChainObjects(blocks) !! rollupRegistry.rollups.Values
      requires RegistryInvariant(env, kv) && Agrees(rollupRegistry.View(), kv, current)
      requires forall i, j :: 0 <= i < j < |blocks| ==> blocks[i].height < blocks[j].height
      requires blocks != [] ==> current <= Epoch(blocks[0].height, env)
      modifies this`kv, rollupRegistry, ChainObjects(blocks)
      ensures kv == ApplyChain(env, old(kv), old(ChainValues(blocks)))
      ensures RegistryInvariant(env, kv)
      ensures Agrees(rollupRegistry.View(), kv, if blocks == [] then current else Epoch(blocks[|blocks| - 1].height, env))
      ensures rollupRegistry.rollups.Values <= old(rollupRegistry.rollups.Values) + ChainObjects(blocks)
      decreases blocks
    {
      if blocks == [] {
        return;
      }
      ghost var values := ChainValues(blocks);
      ChainTail(blocks);
      AcceptBlock(blocks[0].height, blocks[0].txs, current);
      assert ChainValues(blocks[1..]) == values[1..];
      if |blocks| > 1 {
        EpochMonotone(env, blocks[0].height, blocks[1].height);
      }
      AcceptChain(blocks[1..], Epoch(blocks[0].height, env));
    }

    /**
      A sibling block that is not accepted executes a cached action again, against a state of its own:
      the cached info becomes what that execution leaves in the action.
     */
    method ExecuteCachedAgain(r: RollupRegistration, mu: StateView, h: uint64, actor: Address)
      returns (err: Option<Error>)
      requires Keyed(rollupRegistry.View())
      requires IDOf(r.info) in rollupRegistry.rollups && rollupRegistry.rollups[IDOf(r.info)] == r
      modifies mu`kv, r`info
      ensures rollupRegistry.View() == old(rollupRegistry.View())
        [old(IDOf(r.info)) := RegisterExec(mu.env, mu.scope, old(mu.kv), h, actor, old(r.Value())).info]
    {
      ghost var cache := rollupRegistry.View();
      assert forall id :: id in cache ==> cache[id] == rollupRegistry.rollups[id].info;
      err := r.Execute(mu, h, actor);
    }

    /**
      `GetValidRollupsAtEpoch`: for the current epoch and later ones the answer is exactly the
      participants on chain, once each, with their infos on chain.
     */
    method GetValidRollupsAtEpoch(epoch: uint64, ghost current: int) returns (ret: seq<RollupRegistration>)
      requires RegistryInvariant(env, kv) && Agrees(rollupRegistry.View(), kv, current)
      requires current <= epoch
      ensures forall r :: r in ret ==>
        Participates(kv, r.info.namespace, epoch) && InfoOf(kv, r.info.namespace) == Some(r.info)
      ensures forall ns :: Participates(kv, ns, epoch) ==> exists r :: r in ret && r.info.namespace == ns
      ensures forall i, j :: 0 <= i < j < |ret| ==> ret[i].info.namespace != ret[j].info.namespace
    {
      ghost var cache := rollupRegistry.View();
      AgreeingIsKeyed(env, cache, kv, current);
      ret := rollupRegistry.RollupsValidAtEpoch(epoch);
      forall r | r in ret
        ensures Participates(kv, r.info.namespace, epoch) && InfoOf(kv, r.info.namespace) == Some(r.info)
      {
        var id :| id in rollupRegistry.rollups && rollupRegistry.rollups[id] == r;
        assert cache[id] == r.info;
        ValidInCache(env, cache, kv, current, id.namespace, epoch);
      }
      forall ns | Participates(kv, ns, epoch)
        ensures exists r :: r in ret && r.info.namespace == ns
      {
        ValidInCache(env, cache, kv, current, ns, epoch);
        var r := rollupRegistry.rollups[RollupID(ns)];
        assert cache[RollupID(ns)] == r.info;
        assert r in ret && r.info.namespace == ns;
      }
    }
  }

  /** A node that starts on a fresh chain agrees with it after any run of blocks of its own. */
  method RunFromGenesis(env: Env, kv: Store, blocks: seq<BlockRef>) returns (node: SequencerNode)
    requires IsGenesis(kv) && DistinctChain(blocks)
    requires forall i, j :: 0 <= i < j < |blocks| ==> blocks[i].height < blocks[j].height
    modifies ChainObjects(blocks)
    ensures node.env == env && node.kv == ApplyChain(env, kv, old(ChainValues(blocks)))
    ensures blocks != [] ==> Agrees(node.rollupRegistry.View(), node.kv, Epoch(blocks[|blocks| - 1].height, env))
  {
    GenesisInvariants(env, kv);
    node := new SequencerNode(env, kv);
    node.AcceptChain(blocks, 0);
  }
}
