/**
  The declared keys of an action are not too many either: where an action can create what it writes,
  a view that lacks any one declared permission makes it fail in a state where it would succeed. What
  only rewrites existing records needs all that it declares but the permission to allocate.
 */
module Footprints {
  import opened Base
  import opened ChainState
  import opened Balances
  import opened Actions
  import opened Blocks

  /** A transfer needs everything it declares. */
  lemma TransferKeysNeeded(
    env: Env, sc: Scope, actor: Address, to: Address, value: uint64, memo: seq<byte>) returns (kv: Store)
    requires value != 0 && |memo| <= MAX_MEMO_SIZE
    requires !Covers(sc, StateKeys(actor, Transfer(to, value, memo)))
    ensures TransferExec(env, Everything, kv, actor, to, value, memo).Done?
    ensures TransferExec(env, sc, kv, actor, to, value, memo).Fail?
  {
    kv := map[BalanceKey(actor) := Balance(value)];
    var paid := SubBalanceExec(env, Everything, kv, actor, value).kv;
    assert paid == map[];
  }

  /** A bid that passes its checks needs everything it declares. */
  lemma AuctionKeysNeeded(
    env: Env, sc: Scope, h: uint64, actor: Address, a: AuctionInfo, pk: seq<byte>, sig: seq<byte>) returns (kv: Store)
    requires AuctionError(env, h, actor, a, pk, sig).None?
    requires env.fits(BidKey(a.epochNumber), BidRecord(Bid(a.bidPrice, pk, sig)))
    requires !Covers(sc, StateKeys(actor, Auction(a, pk, sig)))
    ensures AuctionExec(env, Everything, kv, h, actor, a, pk, sig).Done?
    ensures AuctionExec(env, sc, kv, h, actor, a, pk, sig).Fail?
  {
    kv := map[BalanceKey(a.builder) := Balance(a.bidPrice)];
    assert a.builder[0] == BLS_ID && ArcadiaFundAddress()[0] == 0;
    var paid := SubBalanceExec(env, Everything, kv, a.builder, a.bidPrice).kv;
    assert paid == map[];
    var funded := AddBalanceExec(env, Everything, paid, ArcadiaFundAddress(), a.bidPrice, true).kv;
    assert funded == map[BalanceKey(ArcadiaFundAddress()) := Balance(a.bidPrice)];
  }

  /** A CREATE that is in time needs everything it declares: a fresh one to allocate, a repeated one to read. */
  lemma CreateKeysNeeded(env: Env, sc: Scope, h: uint64, info: RollupInfo) returns (kv: Store)
    requires |info.namespace| <= env.maxNamespaceLen
    requires Later(Epoch(h, env), 2) <= info.startEpoch && info.exitEpoch == 0
    requires env.fits(InfoKey(info.namespace), Info(info)) && env.fits(RegistryKey, Registry([info.namespace]))
    requires !Covers(sc, StateKeys(info.authority, Register(Registration(info, info.namespace, CREATE_ROLLUP))))
    ensures var r := Registration(info, info.namespace, CREATE_ROLLUP);
      && RegisterExec(env, Everything, kv, h, info.authority, r).exec.Done?
      && RegisterExec(env, sc, kv, h, info.authority, r).exec.Fail?
  {
    if sc.MayRead(InfoKey(info.namespace)) {
      kv := map[];
      assert [] + [info.namespace] == [info.namespace];
    } else {
      kv := map[RegistryKey := Registry([info.namespace]), InfoKey(info.namespace) := Info(info)];
    }
  }

  /** Creating an epoch exit needs everything it declares. */
  lemma ExitKeysNeeded(env: Env, sc: Scope, info: EpochInfo, rollup: RollupInfo) returns (kv: Store)
    requires env.fits(ExitsKey(info.epoch), Exits([info]))
    requires !Covers(sc, StateKeys(rollup.authority, Exit(info, info.epoch, CREATE_EXIT)))
    ensures EpochExitExec(env, Everything, kv, rollup.authority, info, info.epoch, CREATE_EXIT).Done?
    ensures EpochExitExec(env, sc, kv, rollup.authority, info, info.epoch, CREATE_EXIT).Fail?
  {
    kv := map[RegistryKey := Registry([info.namespace]), InfoKey(info.namespace) := Info(rollup)];
    assert ExitsOf(kv, info.epoch) + [info] == [info];
  }

  /** A fee needs everything that is declared for its sponsor. */
  lemma SponsorKeysNeeded(env: Env, sc: Scope, sponsor: Address, amount: uint64) returns (kv: Store)
    requires !Covers(sc, SponsorStateKeys(sponsor))
    ensures DeductExec(env, Everything, kv, sponsor, amount).Done?
    ensures DeductExec(env, sc, kv, sponsor, amount).Fail?
  {
    kv := map[BalanceKey(sponsor) := Balance(amount)];
  }

  // ---------- operations that only rewrite what is there ----------

  function WithoutAllocate(m: map<Key, Perm>): map<Key, Perm> {
    map k | k in m :: m[k].(allocate := false)
  }

  /** UPDATE and EXIT rewrite records that exist, so they never need the permission to allocate. */
  lemma RewriteNeedsNoAllocate(env: Env, sc: Scope, kv: Store, h: uint64, actor: Address, r: Registration)
    requires r.opCode in {UPDATE_ROLLUP, EXIT_ROLLUP}
    requires Covers(sc, WithoutAllocate(StateKeys(actor, Register(r))))
    ensures RegisterExec(env, sc, kv, h, actor, r) == RegisterExec(env, Everything, kv, h, actor, r)
  {
    var m := WithoutAllocate(StateKeys(actor, Register(r)));
    assert InfoKey(r.namespace) in m && RegistryKey in m;
  }

  /** All the rest of the declaration they need. */
  lemma RewriteKeysNeeded(env: Env, sc: Scope, h: uint64, info: RollupInfo, op: int) returns (kv: Store)
    requires |info.namespace| <= env.maxNamespaceLen
    requires op == UPDATE_ROLLUP
          || (op == EXIT_ROLLUP && info.startEpoch <= info.exitEpoch && Later(Epoch(h, env), 2) <= info.exitEpoch)
    requires env.fits(InfoKey(info.namespace), Info(info)) && env.fits(RegistryKey, Registry([info.namespace]))
    requires !Covers(sc, WithoutAllocate(StateKeys(info.authority, Register(Registration(info, info.namespace, op)))))
    ensures var r := Registration(info, info.namespace, op);
      && RegisterExec(env, Everything, kv, h, info.authority, r).exec.Done?
      && RegisterExec(env, sc, kv, h, info.authority, r).exec.Fail?
  {
    kv := map[RegistryKey := Registry([info.namespace]), InfoKey(info.namespace) := Info(info)];
  }

  /** Likewise the deletion of an epoch exit. */
  lemma DeleteNeedsNoAllocate(env: Env, sc: Scope, kv: Store, actor: Address, info: EpochInfo, epoch: uint64)
    requires Covers(sc, WithoutAllocate(StateKeys(actor, Exit(info, epoch, DELETE_EXIT))))
    ensures EpochExitExec(env, sc, kv, actor, info, epoch, DELETE_EXIT)
         == EpochExitExec(env, Everything, kv, actor, info, epoch, DELETE_EXIT)
  {
    var m := WithoutAllocate(StateKeys(actor, Exit(info, epoch, DELETE_EXIT)));
    assert ExitsKey(epoch) in m && InfoKey(info.namespace) in m && RegistryKey in m;
  }

  lemma DeleteKeysNeeded(env: Env, sc: Scope, info: EpochInfo, rollup: RollupInfo) returns (kv: Store)
    requires env.fits(ExitsKey(info.epoch), Exits([]))
    requires !Covers(sc, WithoutAllocate(StateKeys(rollup.authority, Exit(info, info.epoch, DELETE_EXIT))))
    ensures EpochExitExec(env, Everything, kv, rollup.authority, info, info.epoch, DELETE_EXIT).Done?
    ensures EpochExitExec(env, sc, kv, rollup.authority, info, info.epoch, DELETE_EXIT).Fail?
  {
    kv := map[RegistryKey := Registry([info.namespace]), InfoKey(info.namespace) := Info(rollup),
              ExitsKey(info.epoch) := Exits([info])];
    assert [info][..0] + [info][1..] == [];
  }
}
