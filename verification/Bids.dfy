/** Arcadia bids over whole runs: when the bid of an epoch can be placed, which one stands, and where the money goes. */
module Bids {
  import opened Base
  import opened ChainState
  import opened Balances
  import opened Actions
  import opened Words
  import opened Blocks
  import opened Serializability
  import opened Supply

  predicate IsBidFor(e: Event, epoch: uint64) {
    e.Act? && e.action.Auction? && e.action.auction.epochNumber == epoch
  }

  /** The last accepted bid for the epoch. */
  function LastBid(events: seq<Event>, epoch: uint64): Option<Bid> {
    if events == [] then None
    else
      var later := LastBid(events[1..], epoch);
      if later.Some? then later
      else if IsBidFor(events[0], epoch) then
        var a := events[0].action;
        Some(Bid(a.auction.bidPrice, a.publicKey, a.signature))
      else None
  }

  /** What a bidder signs the hash of: the one string of these 49 bytes. */
  function SignedBytes(a: AuctionInfo): (m: seq<byte>)
    ensures |m| == 49
    ensures FromBigEndian(m[..8]) == a.epochNumber && FromBigEndian(m[8..16]) == a.bidPrice && m[16..] == a.builder
  {
    var m := Word64(a.epochNumber) + Word64(a.bidPrice) + a.builder;
    assert m[..8] == Word64(a.epochNumber) && m[8..16] == Word64(a.bidPrice) && m[16..] == a.builder;
    m
  }

  lemma HashesSignedBytes(env: Env, a: AuctionInfo)
    ensures HashAuctionInfo(env, a) == env.crypto.sha256(SignedBytes(a))
  {
    DigestPreimage(env, a, SignedBytes(a));
  }

  /** An accepted bid for an epoch was placed during the epoch before it, signed by its builder's key. */
  lemma AcceptedBid(env: Env, kv: Store, e: Event, epoch: uint64)
    requires EventExec(env, kv, e).Done? && IsBidFor(e, epoch)
    ensures (epoch - 1) * env.epochLength <= e.height < epoch * env.epochLength
    ensures e.actor in env.whitelist
    ensures var a := e.action;
      && BidOf(EventExec(env, kv, e).kv, epoch) == Some(Bid(a.auction.bidPrice, a.publicKey, a.signature))
      && env.crypto.verifies(env.crypto.sha256(SignedBytes(a.auction)), a.publicKey, a.signature)
      && a.auction.builder == [1] + env.crypto.toID(a.publicKey)
  {
    HashesSignedBytes(env, e.action.auction);
  }

  /** What a bid must be in itself: sent by a whitelisted actor, signed with the key of its builder, and not too long. */
  predicate Genuine(env: Env, actor: Address, a: AuctionInfo, pk: seq<byte>, sig: seq<byte>) {
    && actor in env.whitelist
    && env.crypto.parsesKey(pk) && env.crypto.parsesSignature(sig)
    && env.crypto.verifies(env.crypto.sha256(SignedBytes(a)), pk, sig)
    && a.builder == [1] + env.crypto.toID(pk)
    && env.fits(BidKey(a.epochNumber), BidRecord(Bid(a.bidPrice, pk, sig)))
  }

  lemma CoveredBid(env: Env, kv: Store, h: Height, actor: Address, a: AuctionInfo, pk: seq<byte>, sig: seq<byte>)
    requires Total(kv) < TWO_TO_64 && a.epochNumber == Epoch(h, env) + 1
    requires Genuine(env, actor, a, pk, sig) && a.bidPrice <= BalanceOf(kv, a.builder)
    ensures AuctionExec(env, Everything, kv, h, actor, a, pk, sig).Done?
  {
    HashesSignedBytes(env, a);
    assert SubBalanceExec(env, Everything, kv, a.builder, a.bidPrice).Done?;
    AddAfterSub(env, kv, a.builder, ArcadiaFundAddress(), a.bidPrice);
  }

  /** A bid for an epoch is accepted exactly when it is genuine, comes in the epoch before, and its builder covers it. */
  lemma AcceptedIff(env: Env, kv: Store, h: Height, actor: Address, a: AuctionInfo, pk: seq<byte>, sig: seq<byte>)
    requires Total(kv) < TWO_TO_64
    ensures AuctionExec(env, Everything, kv, h, actor, a, pk, sig).Done? <==>
      && Genuine(env, actor, a, pk, sig)
      && (a.epochNumber - 1) * env.epochLength <= h < a.epochNumber * env.epochLength
      && a.bidPrice <= BalanceOf(kv, a.builder)
  {
    InEpoch(env, h, a.epochNumber - 1);
    HashesSignedBytes(env, a);
    if a.epochNumber == Epoch(h, env) + 1 && Genuine(env, actor, a, pk, sig) && a.bidPrice <= BalanceOf(kv, a.builder) {
      CoveredBid(env, kv, h, actor, a, pk, sig);
    }
  }

  /** Why a bid is refused: the first of these that applies. */
  lemma BidRefused(env: Env, kv: Store, h: Height, actor: Address, a: AuctionInfo, pk: seq<byte>, sig: seq<byte>)
    requires Total(kv) < TWO_TO_64
    requires AuctionExec(env, Everything, kv, h, actor, a, pk, sig).Fail?
    ensures var err := AuctionExec(env, Everything, kv, h, actor, a, pk, sig).err;
      if actor !in env.whitelist then err == NotWhiteListed
      else if a.epochNumber != Epoch(h, env) + 1 then err == EpochNotValid
      else if !env.crypto.parsesKey(pk) then err == BadPublicKey
      else if !env.crypto.parsesSignature(sig) then err == BadSignature
      else if !env.crypto.verifies(env.crypto.sha256(SignedBytes(a)), pk, sig) then err == InvalidBidderSignature
      else if a.builder != [1] + env.crypto.toID(pk) then err == BuilderAddressMismatch
      else if BalanceOf(kv, a.builder) < a.bidPrice then err == CouldNotSubtract
      else err == InvalidKeyOrValue
  {
    HashesSignedBytes(env, a);
    if SubBalanceExec(env, Everything, kv, a.builder, a.bidPrice).Done? {
      AddAfterSub(env, kv, a.builder, ArcadiaFundAddress(), a.bidPrice);
    }
  }

  lemma InEpoch(env: Env, h: Height, e: int)
    ensures e == Epoch(h, env) <==> e * env.epochLength <= h < (e + 1) * env.epochLength
  {
    if e * env.epochLength <= h < (e + 1) * env.epochLength {
      ProductOrder(e, Epoch(h, env) + 1, env.epochLength);
      ProductOrder(Epoch(h, env), e + 1, env.epochLength);
    }
  }

  ghost predicate PriceFalls(kv: Store, kv': Store, epoch: uint64) {
    BidOf(kv, epoch).Some? && BidOf(kv', epoch).Some? && BidOf(kv', epoch).value.price < BidOf(kv, epoch).value.price
  }

  /** The recorded price of an epoch falls exactly when a bid below it is accepted: nothing compares the two. */
  lemma PriceFallsIff(env: Env, kv: Store, e: Event, epoch: uint64)
    requires EventExec(env, kv, e).Done?
    ensures PriceFalls(kv, EventExec(env, kv, e).kv, epoch) <==>
      IsBidFor(e, epoch) && BidOf(kv, epoch).Some? && e.action.auction.bidPrice < BidOf(kv, epoch).value.price
  {
    if IsBidFor(e, epoch) {
      AcceptedBid(env, kv, e, epoch);
    } else {
      OthersKeepBid(env, kv, e, epoch);
    }
  }

  /** Nothing else touches the bid of an epoch. */
  lemma OthersKeepBid(env: Env, kv: Store, e: Event, epoch: uint64)
    requires !IsBidFor(e, epoch)
    ensures BidOf(EventExec(env, kv, e).kv, epoch) == BidOf(kv, epoch)
  {
    match e {
      case Fee(sponsor, amount) => FeeFrame(env, kv, sponsor, amount);
      case Act(h, actor, a) => ActionFrame(env, kv, h, actor, a);
    }
    assert SameAt(kv, EventExec(env, kv, e).kv, BidKey(epoch));
  }

  ghost predicate BidsInWindow(env: Env, events: seq<Event>) {
    forall i: int, epoch: uint64 :: 0 <= i < |events| && IsBidFor(events[i], epoch) ==>
      (epoch - 1) * env.epochLength <= events[i].height < epoch * env.epochLength
  }

  lemma {:induction false} ReplayBid(env: Env, kv: Store, events: seq<Event>, epoch: uint64)
    requires Replay(env, kv, events).Done?
    ensures BidOf(Replay(env, kv, events).kv, epoch)
         == if LastBid(events, epoch).Some? then LastBid(events, epoch) else BidOf(kv, epoch)
    ensures BidsInWindow(env, events)
    decreases events
  {
    if events != [] {
      var e := events[0];
      ReplayBid(env, EventExec(env, kv, e).kv, events[1..], epoch);
      if IsBidFor(e, epoch) {
        AcceptedBid(env, kv, e, epoch);
      } else {
        OthersKeepBid(env, kv, e, epoch);
      }
      forall i: int, other: uint64 | 0 <= i < |events| && IsBidFor(events[i], other)
        ensures (other - 1) * env.epochLength <= events[i].height < other * env.epochLength
      {
        if i == 0 {
          AcceptedBid(env, kv, e, other);
        } else {
          assert events[i] == events[1..][i - 1];
        }
      }
    }
  }

  /** The bid on record for an epoch is the last one accepted, and every accepted one came during the epoch before. */
  lemma BidOnRecord(env: Env, kv: Store, blocks: seq<Block>, epoch: uint64)
    ensures var events := ChainEvents(env, kv, blocks);
      && BidOf(ApplyChain(env, kv, blocks), epoch)
           == (if LastBid(events, epoch).Some? then LastBid(events, epoch) else BidOf(kv, epoch))
      && BidsInWindow(env, events)
  {
    ChainIsReplay(env, kv, blocks);
    ReplayBid(env, kv, ChainEvents(env, kv, blocks), epoch);
  }

  lemma {:induction false} NoBidOutside(env: Env, events: seq<Event>, epoch: uint64)
    requires BidsInWindow(env, events)
    requires forall i :: 0 <= i < |events| && events[i].Act? ==>
      events[i].height < (epoch - 1) * env.epochLength || epoch * env.epochLength <= events[i].height
    ensures LastBid(events, epoch) == None
  {
    if events != [] {
      assert forall i :: 0 <= i < |events[1..]| ==> events[1..][i] == events[i + 1];
      NoBidOutside(env, events[1..], epoch);
    }
  }

  /**
    Blocks outside the bidding window leave the bid of an epoch as it is: it stays absent before
    height (epoch-1)*L, and whatever stands at height epoch*L stands for ever.
   */
  lemma BidFixedOutsideWindow(env: Env, kv: Store, blocks: seq<Block>, epoch: uint64)
    requires forall i :: 0 <= i < |blocks| ==>
      blocks[i].height < (epoch - 1) * env.epochLength || epoch * env.epochLength <= blocks[i].height
    ensures BidOf(ApplyChain(env, kv, blocks), epoch) == BidOf(kv, epoch)
  {
    var events := ChainEvents(env, kv, blocks);
    BidOnRecord(env, kv, blocks, epoch);
    ChainEventHeight(env, kv, blocks);
    assert forall i :: 0 <= i < |events| ==> events[i] in events;
    NoBidOutside(env, events, epoch);
  }

  // ---------- a run in which a lower bid replaces a higher one ----------

  /** What an accepted bid does to its record and to the balances of its builder and of any other account. */
  lemma BidEffect(env: Env, kv: Store, h: Height, actor: Address, a: AuctionInfo, pk: seq<byte>, sig: seq<byte>)
    requires AuctionExec(env, Everything, kv, h, actor, a, pk, sig).Done?
    ensures var kv' := AuctionExec(env, Everything, kv, h, actor, a, pk, sig).kv;
      && BidOf(kv', a.epochNumber) == Some(Bid(a.bidPrice, pk, sig))
      && BalanceOf(kv', a.builder) == BalanceOf(kv, a.builder) - a.bidPrice
      && forall b :: b != a.builder ==> BalanceOf(kv', b) >= BalanceOf(kv, b)
  {
    AuctionMoves(env, kv, h, actor, a, pk, sig);
    AcceptedBid(env, kv, Act(h, actor, Auction(a, pk, sig)), a.epochNumber);
  }

  lemma FeePaid(env: Env, kv: Store, payer: Address, fee: uint64, other: Address)
    requires fee <= BalanceOf(kv, payer) && other != payer
    ensures var paid := EventExec(env, kv, Fee(payer, fee)).kv;
      BalanceOf(paid, payer) == BalanceOf(kv, payer) - fee && BalanceOf(paid, other) == BalanceOf(kv, other)
  {
  }

  /** A block of one bid that is genuine, timely and covered, from an actor other than its builder. */
  lemma BidRuns(
    env: Env, kv: Store, h: Height, id: ID, actor: Address, fee: uint64, a: AuctionInfo, pk: seq<byte>, sig: seq<byte>)
    requires Total(kv) < TWO_TO_64 && actor != a.builder
    requires Genuine(env, actor, a, pk, sig) && a.epochNumber == Epoch(h, env) + 1
    requires fee <= BalanceOf(kv, actor) && a.bidPrice <= BalanceOf(kv, a.builder)
    ensures var kv' := ApplyChain(env, kv, [Single(h, id, actor, fee, Auction(a, pk, sig))]);
      && BidOf(kv', a.epochNumber) == Some(Bid(a.bidPrice, pk, sig))
      && BalanceOf(kv', a.builder) == BalanceOf(kv, a.builder) - a.bidPrice
      && BalanceOf(kv', actor) >= BalanceOf(kv, actor) - fee
      && Total(kv') < TWO_TO_64
  {
    SingleRuns(env, kv, h, id, actor, fee, Auction(a, pk, sig));
    SupplyConserved(env, kv, [Single(h, id, actor, fee, Auction(a, pk, sig))]);
    var paid := EventExec(env, kv, Fee(actor, fee)).kv;
    EventTotal(env, kv, Fee(actor, fee));
    FeePaid(env, kv, actor, fee, a.builder);
    CoveredBid(env, paid, h, actor, a, pk, sig);
    BidEffect(env, paid, h, actor, a, pk, sig);
  }

  /**
    Epoch 2 is auctioned in epoch 1, blocks 6 to 11. A bid of 100 is accepted in the very first of
    them, a bid of 1 replaces it in the next, and the builder has paid for both.
   */
  lemma LowerBidReplaces(
    env: Env, kv: Store, actor: Address, fee: uint64, ids: Height -> ID,
    builder: Address, pk: seq<byte>, sig100: seq<byte>, sig1: seq<byte>)
    requires Total(kv) < TWO_TO_64 && env.epochLength == 6 && actor != builder
    requires Genuine(env, actor, AuctionInfo(2, 100, builder), pk, sig100)
    requires Genuine(env, actor, AuctionInfo(2, 1, builder), pk, sig1)
    requires 2 * fee <= BalanceOf(kv, actor) && 101 <= BalanceOf(kv, builder)
    ensures var high := Single(6, ids(6), actor, fee, Auction(AuctionInfo(2, 100, builder), pk, sig100));
            var low := Single(7, ids(7), actor, fee, Auction(AuctionInfo(2, 1, builder), pk, sig1));
      && BidOf(ApplyChain(env, kv, [high]), 2) == Some(Bid(100, pk, sig100))
      && BidOf(ApplyChain(env, kv, [high, low]), 2) == Some(Bid(1, pk, sig1))
      && BalanceOf(ApplyChain(env, kv, [high, low]), builder) == BalanceOf(kv, builder) - 101
  {
    var high := Single(6, ids(6), actor, fee, Auction(AuctionInfo(2, 100, builder), pk, sig100));
    var low := Single(7, ids(7), actor, fee, Auction(AuctionInfo(2, 1, builder), pk, sig1));
    BidRuns(env, kv, 6, ids(6), actor, fee, AuctionInfo(2, 100, builder), pk, sig100);
    BidRuns(env, ApplyChain(env, kv, [high]), 7, ids(7), actor, fee, AuctionInfo(2, 1, builder), pk, sig1);
    ChainConcat(env, kv, [high], [low]);
    assert [high] + [low] == [high, low];
  }

  // ---------- the fund ----------

  /** What an event pays into the fund. */
  function Income(e: Event): nat {
    if !e.Act? then 0
    else match e.action
      case Auction(a, _, _) => a.bidPrice
      case Transfer(to, value, _) => if to == ArcadiaFundAddress() then value else 0
      case _ => 0
  }

  function TotalIncome(events: seq<Event>): nat {
    if events == [] then 0 else Income(events[0]) + TotalIncome(events[1..])
  }

  /** The fund neither pays a fee nor sends a transfer. */
  predicate FundSilent(e: Event) {
    match e
    case Fee(sponsor, _) => sponsor != ArcadiaFundAddress()
    case Act(_, actor, a) => a.Transfer? ==> actor != ArcadiaFundAddress()
  }

  lemma EventIncome(env: Env, kv: Store, e: Event)
    requires EventExec(env, kv, e).Done? && FundSilent(e)
    ensures BalanceOf(EventExec(env, kv, e).kv, ArcadiaFundAddress()) == BalanceOf(kv, ArcadiaFundAddress()) + Income(e)
  {
    var fund, kv' := ArcadiaFundAddress(), EventExec(env, kv, e).kv;
    match e
    case Fee(sponsor, amount) =>
    case Act(h, actor, a) =>
      match a {
        case Transfer(to, value, memo) =>
        case Auction(info, pk, sig) => AuctionMoves(env, kv, h, actor, info, pk, sig);
        case _ =>
          ActionFrame(env, kv, h, actor, a);
          assert SameAt(kv, kv', BalanceKey(fund));
      }
  }

  lemma {:induction false} ReplayIncome(env: Env, kv: Store, events: seq<Event>)
    requires Replay(env, kv, events).Done?
    requires forall i :: 0 <= i < |events| ==> FundSilent(events[i])
    ensures BalanceOf(Replay(env, kv, events).kv, ArcadiaFundAddress())
         == BalanceOf(kv, ArcadiaFundAddress()) + TotalIncome(events)
    decreases events
  {
    if events != [] {
      EventIncome(env, kv, events[0]);
      assert forall i :: 0 <= i < |events[1..]| ==> events[1..][i] == events[i + 1];
      ReplayIncome(env, EventExec(env, kv, events[0]).kv, events[1..]);
    }
  }

  /** While the fund signs nothing, its balance grows by exactly the accepted bids and the transfers to it. */
  lemma FundGrows(env: Env, kv: Store, blocks: seq<Block>)
    requires forall e :: e in ChainEvents(env, kv, blocks) ==> FundSilent(e)
    ensures BalanceOf(ApplyChain(env, kv, blocks), ArcadiaFundAddress())
         == BalanceOf(kv, ArcadiaFundAddress()) + TotalIncome(ChainEvents(env, kv, blocks))
  {
    ChainIsReplay(env, kv, blocks);
    ReplayIncome(env, kv, ChainEvents(env, kv, blocks));
  }
}
