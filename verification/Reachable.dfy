/** Everything that holds in every state the chain reaches from genesis. */
module Reachable {
  import opened Base
  import opened ChainState
  import opened Blocks
  import opened Rollups
  import opened EpochExits
  import opened Supply
  import opened Bids
  import opened RollupCache

  /** What `Load` leaves on success: balances only, within a supply that fits 64 bits. */
  ghost predicate IsGenesis(kv: Store) {
    (forall k :: k in kv ==> k.BalanceKey?) && Total(kv) < TWO_TO_64
  }

  /** `Load` on an empty state establishes it. */
  method LoadGenesis(env: Env, allocs: seq<Allocation>) returns (mu: StateView, err: Option<GenesisError>)
    ensures err.None? ==> IsGenesis(mu.kv)
  {
    mu := new StateView(env, Everything, map[]);
    err := Load(mu, true, allocs);
  }

  lemma GenesisInvariants(env: Env, kv: Store)
    requires IsGenesis(kv)
    ensures RegistryInvariant(env, kv) && ExitsInvariant(kv)
    ensures forall ns :: InfoOf(kv, ns).None?
    ensures forall epoch: uint64 :: BidOf(kv, epoch).None?
  {
  }

  /**
    After any blocks of increasing height from genesis: the registry and exit lists are well formed,
    balances and fees add up to the genesis supply, the cache agrees with the chain, each bid on record is
    the last one accepted, and no next transaction dereferences a missing info or overflows a balance.
   */
  lemma EveryReachableState(env: Env, kv: Store, blocks: seq<Block>, h: Height, tx: Tx)
    requires IsGenesis(kv) && Increasing(blocks)
    ensures var s, events := ApplyChain(env, kv, blocks), ChainEvents(env, kv, blocks);
      && RegistryInvariant(env, s) && ExitsInvariant(s)
      && Total(s) + Fees(events) == Total(kv) < TWO_TO_64
      && (forall epoch: uint64 :: BidOf(s, epoch) == LastBid(events, epoch))
      && ApplyTx(env, s, h, tx).verdict !in {Failed(NilDereference), Failed(CouldNotAdd)}
    ensures blocks != [] ==>
      Agrees(CacheAfter(env, map[], kv, blocks), ApplyChain(env, kv, blocks), Epoch(blocks[|blocks| - 1].height, env))
  {
    GenesisInvariants(env, kv);
    ChainKeepsInvariant(env, kv, blocks);
    ChainKeepsExits(env, kv, blocks);
    SupplyConserved(env, kv, blocks);
    NilSafe(env, kv, blocks, h, tx);
    NoOverflow(env, kv, blocks, h, tx);
    forall epoch: uint64
      ensures BidOf(ApplyChain(env, kv, blocks), epoch) == LastBid(ChainEvents(env, kv, blocks), epoch)
    {
      BidOnRecord(env, kv, blocks, epoch);
    }
    EmptyCacheAgrees(kv, 0);
    CacheAgreement(env, map[], kv, blocks, 0);
  }
}
