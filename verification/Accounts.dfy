/**
  Empty accounts. The storage layer removes a balance that reaches zero, so that an account without
  balance has no record; a bid of price zero is what can still leave one, for the fund.
 */
module Accounts {
  import opened Base
  import opened ChainState
  import opened Balances
  import opened Actions
  import opened Blocks
  import opened Serializability
  import opened Supply
  import opened Bids

  ghost predicate NoEmptyAccount(kv: Store) {
    forall a: Address :: BalanceKey(a) in kv ==> BalanceOf(kv, a) > 0
  }

  /** A bid of nothing when the fund has no record yet. */
  predicate OpensFundEmpty(kv: Store, e: Event) {
    e.Act? && e.action.Auction? && e.action.auction.bidPrice == 0 && BalanceKey(ArcadiaFundAddress()) !in kv
  }

  /** What is subtracted in full leaves no record behind, and anything less leaves one. */
  lemma SubLeaves(env: Env, kv: Store, a: Address, amount: uint64)
    requires NoEmptyAccount(kv) && SubBalanceExec(env, Everything, kv, a, amount).Done?
    ensures var s := SubBalanceExec(env, Everything, kv, a, amount).kv;
      NoEmptyAccount(s) && (BalanceKey(a) in s <==> amount < BalanceOf(kv, a))
  {
  }

  lemma AddLeaves(env: Env, kv: Store, a: Address, amount: uint64)
    requires NoEmptyAccount(kv) && AddBalanceExec(env, Everything, kv, a, amount, true).Done?
    ensures var s := AddBalanceExec(env, Everything, kv, a, amount, true).kv;
      NoEmptyAccount(s) <==> amount > 0 || BalanceKey(a) in kv
  {
    var s := AddBalanceExec(env, Everything, kv, a, amount, true).kv;
    assert BalanceKey(a) in s;
  }

  lemma AuctionLeaves(env: Env, kv: Store, h: Height, actor: Address, a: AuctionInfo, pk: seq<byte>, sig: seq<byte>)
    requires NoEmptyAccount(kv) && AuctionExec(env, Everything, kv, h, actor, a, pk, sig).Done?
    ensures NoEmptyAccount(AuctionExec(env, Everything, kv, h, actor, a, pk, sig).kv)
        <==> !OpensFundEmpty(kv, Act(h, actor, Auction(a, pk, sig)))
  {
    var fund, s := ArcadiaFundAddress(), AuctionExec(env, Everything, kv, h, actor, a, pk, sig).kv;
    AuctionMoves(env, kv, h, actor, a, pk, sig);
    var paid := SubBalanceExec(env, Everything, kv, a.builder, a.bidPrice).kv;
    SubLeaves(env, kv, a.builder, a.bidPrice);
    AddLeaves(env, paid, fund, a.bidPrice);
    var funded := AddBalanceExec(env, Everything, paid, fund, a.bidPrice, true).kv;
    assert forall b: Address :: SameAt(funded, s, BalanceKey(b));
    assert BalanceKey(fund) in paid <==> BalanceKey(fund) in kv;
    if NoEmptyAccount(s) {
      assert NoEmptyAccount(funded);
    }
  }

  /** A committed event leaves no empty account exactly when it is not a bid that opens the fund with nothing. */
  lemma EventLeaves(env: Env, kv: Store, e: Event)
    requires NoEmptyAccount(kv) && EventExec(env, kv, e).Done?
    ensures NoEmptyAccount(EventExec(env, kv, e).kv) <==> !OpensFundEmpty(kv, e)
  {
    match e
    case Fee(sponsor, amount) => SubLeaves(env, kv, sponsor, amount);
    case Act(h, actor, a) =>
      match a {
        case Transfer(to, value, memo) =>
          SubLeaves(env, kv, actor, value);
          AddLeaves(env, SubBalanceExec(env, Everything, kv, actor, value).kv, to, value);
        case Auction(info, pk, sig) => AuctionLeaves(env, kv, h, actor, info, pk, sig);
        case _ =>
          ActionFrame(env, kv, h, actor, a);
          assert forall b: Address :: SameAt(kv, EventExec(env, kv, e).kv, BalanceKey(b));
      }
  }

  lemma {:induction false} ReplayLeaves(env: Env, kv: Store, events: seq<Event>)
    requires NoEmptyAccount(kv) && Replay(env, kv, events).Done?
    requires forall e :: e in events && e.Act? && e.action.Auction? ==> e.action.auction.bidPrice > 0
    ensures NoEmptyAccount(Replay(env, kv, events).kv)
    decreases events
  {
    if events != [] {
      assert events[0] in events && forall e :: e in events[1..] ==> e in events;
      EventLeaves(env, kv, events[0]);
      ReplayLeaves(env, EventExec(env, kv, events[0]).kv, events[1..]);
    }
  }

  /** Blocks in which every accepted bid offers something never leave an empty account. */
  lemma ChainLeaves(env: Env, kv: Store, blocks: seq<Block>)
    requires NoEmptyAccount(kv)
    requires forall e :: e in ChainEvents(env, kv, blocks) && e.Act? && e.action.Auction? ==> e.action.auction.bidPrice > 0
    ensures NoEmptyAccount(ApplyChain(env, kv, blocks))
  {
    ChainIsReplay(env, kv, blocks);
    ReplayLeaves(env, kv, ChainEvents(env, kv, blocks));
  }

  /** On an empty chain, any genuine bid of nothing in its epoch is accepted and opens the fund with nothing. */
  lemma ZeroBidOpensFund(env: Env, h: Height, actor: Address, a: AuctionInfo, pk: seq<byte>, sig: seq<byte>)
    requires Genuine(env, actor, a, pk, sig) && a.epochNumber == Epoch(h, env) + 1 && a.bidPrice == 0
    ensures var r := AuctionExec(env, Everything, map[], h, actor, a, pk, sig);
      && r.Done?
      && BalanceKey(ArcadiaFundAddress()) in r.kv && BalanceOf(r.kv, ArcadiaFundAddress()) == 0
  {
    SumZero(map[], {});
    CoveredBid(env, map[], h, actor, a, pk, sig);
  }
}
