/**
  Conservation of supply: what genesis allocates is what balances and fees add up to ever after, so
  no addition can overflow. Covers genesis/genesis.go and the fee hooks of controller/state_manager.go.
 */
module Supply {
  import opened Base
  import opened ChainState
  import opened Balances
  import opened Actions
  import opened Blocks
  import opened Serializability

  // ---------- the sum of all balances ----------

  function AmountAt(kv: Store, k: Key): uint64 {
    if k in kv && k.BalanceKey? then kv[k].amount else 0
  }

  ghost function Sum(kv: Store, keys: set<Key>): nat {
    if keys == {} then 0
    else
      var k :| k in keys;
      AmountAt(kv, k) + Sum(kv, keys - {k})
  }

  ghost function Total(kv: Store): nat {
    Sum(kv, kv.Keys)
  }

  lemma {:induction false} SumSplit(kv: Store, keys: set<Key>, k: Key)
    requires k in keys
    ensures Sum(kv, keys) == AmountAt(kv, k) + Sum(kv, keys - {k})
    decreases keys
  {
    var j :| j in keys && Sum(kv, keys) == AmountAt(kv, j) + Sum(kv, keys - {j});
    if j != k {
      SumSplit(kv, keys - {j}, k);
      SumSplit(kv, keys - {k}, j);
      assert keys - {j} - {k} == keys - {k} - {j};
    }
  }

  lemma {:induction false} SumSame(kv: Store, kv': Store, keys: set<Key>)
    requires forall k :: k in keys ==> AmountAt(kv, k) == AmountAt(kv', k)
    ensures Sum(kv, keys) == Sum(kv', keys)
    decreases keys
  {
    if keys != {} {
      var k :| k in keys;
      SumSame(kv, kv', keys - {k});
      SumSplit(kv, keys, k);
      SumSplit(kv', keys, k);
    }
  }

  /** Keys without a record add nothing. */
  lemma {:induction false} SumPad(kv: Store, keys: set<Key>)
    requires kv.Keys <= keys
    ensures Sum(kv, keys) == Total(kv)
    decreases keys
  {
    if keys != kv.Keys {
      assert !(keys <= kv.Keys);
      var k :| k in keys && k !in kv.Keys;
      SumSplit(kv, keys, k);
      SumPad(kv, keys - {k});
    }
  }

  lemma {:induction false} SumZero(kv: Store, keys: set<Key>)
    requires forall k :: k in keys ==> AmountAt(kv, k) == 0
    ensures Sum(kv, keys) == 0
    decreases keys
  {
    if keys != {} {
      var k :| k in keys;
      SumSplit(kv, keys, k);
      SumZero(kv, keys - {k});
    }
  }

  /** A change at one key moves the total by the change of that amount. */
  lemma TotalMoves(kv: Store, kv': Store, k: Key)
    requires forall j :: j != k ==> AmountAt(kv, j) == AmountAt(kv', j)
    ensures Total(kv') + AmountAt(kv, k) == Total(kv) + AmountAt(kv', k)
  {
    var keys := kv.Keys + kv'.Keys + {k};
    SumPad(kv, keys);
    SumPad(kv', keys);
    SumSplit(kv, keys, k);
    SumSplit(kv', keys, k);
    SumSame(kv, kv', keys - {k});
  }

  lemma TotalSame(kv: Store, kv': Store)
    requires forall j :: AmountAt(kv, j) == AmountAt(kv', j)
    ensures Total(kv') == Total(kv)
  {
    TotalMoves(kv, kv', RegistryKey);
  }

  lemma BalanceWithinTotal(kv: Store, a: Address)
    ensures BalanceOf(kv, a) <= Total(kv)
  {
    if BalanceKey(a) in kv {
      SumSplit(kv, kv.Keys, BalanceKey(a));
    }
  }

  // ---------- what moves and what is conserved ----------

  lemma SubTotal(env: Env, kv: Store, a: Address, amount: uint64)
    requires SubBalanceExec(env, Everything, kv, a, amount).Done?
    ensures Total(SubBalanceExec(env, Everything, kv, a, amount).kv) + amount == Total(kv)
  {
    TotalMoves(kv, SubBalanceExec(env, Everything, kv, a, amount).kv, BalanceKey(a));
  }

  lemma AddTotal(env: Env, kv: Store, a: Address, amount: uint64)
    requires AddBalanceExec(env, Everything, kv, a, amount, true).Done?
    ensures Total(AddBalanceExec(env, Everything, kv, a, amount, true).kv) == Total(kv) + amount
  {
    TotalMoves(kv, AddBalanceExec(env, Everything, kv, a, amount, true).kv, BalanceKey(a));
  }

  /** Once an amount has been taken out of a bounded supply, it can be put back anywhere. */
  lemma AddAfterSub(env: Env, kv: Store, from: Address, to: Address, amount: uint64)
    requires Total(kv) < TWO_TO_64 && SubBalanceExec(env, Everything, kv, from, amount).Done?
    ensures AddBalanceExec(env, Everything, SubBalanceExec(env, Everything, kv, from, amount).kv, to, amount, true).Done?
  {
    SubTotal(env, kv, from, amount);
    BalanceWithinTotal(SubBalanceExec(env, Everything, kv, from, amount).kv, to);
  }

  /** A transfer succeeds exactly when it is well formed and covered, and then moves the value: to itself included. */
  lemma TransferMoves(env: Env, kv: Store, actor: Address, to: Address, value: uint64, memo: seq<byte>)
    requires Total(kv) < TWO_TO_64
    ensures var r := TransferExec(env, Everything, kv, actor, to, value, memo);
      && (r.Done? <==> value != 0 && |memo| <= 256 && value <= BalanceOf(kv, actor))
      && (r.Done? ==> forall a ::
           BalanceOf(r.kv, a) == BalanceOf(kv, a) - (if a == actor then value else 0) + (if a == to then value else 0))
      && (r.Fail? ==>
           r == Fail(kv, if value == 0 then OutputValueZero
                         else if |memo| > 256 then OutputMemoTooLarge
                         else CouldNotSubtract))
  {
    if value != 0 && |memo| <= MAX_MEMO_SIZE && value <= BalanceOf(kv, actor) {
      AddAfterSub(env, kv, actor, to, value);
    }
  }

  /** An accepted bid moves its price from the builder to the fund. */
  lemma AuctionMoves(env: Env, kv: Store, h: Height, actor: Address, a: AuctionInfo, pk: seq<byte>, sig: seq<byte>)
    requires AuctionExec(env, Everything, kv, h, actor, a, pk, sig).Done?
    ensures var r := AuctionExec(env, Everything, kv, h, actor, a, pk, sig);
      && a.builder != ArcadiaFundAddress()
      && a.bidPrice <= BalanceOf(kv, a.builder)
      && forall b ::
           BalanceOf(r.kv, b) ==
           BalanceOf(kv, b) - (if b == a.builder then a.bidPrice else 0) + (if b == ArcadiaFundAddress() then a.bidPrice else 0)
  {
    assert a.builder[0] == BLS_ID && ArcadiaFundAddress()[0] == 0;
    var paid := SubBalanceExec(env, Everything, kv, a.builder, a.bidPrice).kv;
    var funded := AddBalanceExec(env, Everything, paid, ArcadiaFundAddress(), a.bidPrice, true).kv;
    var r := AuctionExec(env, Everything, kv, h, actor, a, pk, sig);
    assert forall b :: BalanceOf(r.kv, b) == BalanceOf(funded, b);
  }

  lemma AuctionTotal(env: Env, kv: Store, h: Height, actor: Address, a: AuctionInfo, pk: seq<byte>, sig: seq<byte>)
    requires AuctionExec(env, Everything, kv, h, actor, a, pk, sig).Done?
    ensures Total(AuctionExec(env, Everything, kv, h, actor, a, pk, sig).kv) == Total(kv)
  {
    var paid := SubBalanceExec(env, Everything, kv, a.builder, a.bidPrice).kv;
    SubTotal(env, kv, a.builder, a.bidPrice);
    AddTotal(env, paid, ArcadiaFundAddress(), a.bidPrice);
    var funded := AddBalanceExec(env, Everything, paid, ArcadiaFundAddress(), a.bidPrice, true).kv;
    TotalSame(funded, AuctionExec(env, Everything, kv, h, actor, a, pk, sig).kv);
  }

  lemma TransferTotal(env: Env, kv: Store, actor: Address, to: Address, value: uint64, memo: seq<byte>)
    requires TransferExec(env, Everything, kv, actor, to, value, memo).Done?
    ensures Total(TransferExec(env, Everything, kv, actor, to, value, memo).kv) == Total(kv)
  {
    SubTotal(env, kv, actor, value);
    AddTotal(env, SubBalanceExec(env, Everything, kv, actor, value).kv, to, value);
  }

  function FeeOf(e: Event): nat {
    if e.Fee? then e.amount else 0
  }

  /** A committed event takes its fee out of the total and nothing else. */
  lemma EventTotal(env: Env, kv: Store, e: Event)
    requires EventExec(env, kv, e).Done?
    ensures Total(EventExec(env, kv, e).kv) + FeeOf(e) == Total(kv)
  {
    match e
    case Fee(sponsor, amount) => SubTotal(env, kv, sponsor, amount);
    case Act(h, actor, a) =>
      match a {
        case Transfer(to, value, memo) => TransferTotal(env, kv, actor, to, value, memo);
        case Auction(info, pk, sig) => AuctionTotal(env, kv, h, actor, info, pk, sig);
        case _ =>
          var kv' := EventExec(env, kv, e).kv;
          ActionFrame(env, kv, h, actor, a);
          forall k
            ensures AmountAt(kv, k) == AmountAt(kv', k)
          {
            assert k.BalanceKey? ==> SameAt(kv, kv', k);
          }
          TotalSame(kv, kv');
      }
  }

  function Fees(events: seq<Event>): nat {
    if events == [] then 0 else FeeOf(events[0]) + Fees(events[1..])
  }

  lemma {:induction false} ReplayTotal(env: Env, kv: Store, events: seq<Event>)
    requires Replay(env, kv, events).Done?
    ensures Total(Replay(env, kv, events).kv) + Fees(events) == Total(kv)
    decreases events
  {
    if events != [] {
      EventTotal(env, kv, events[0]);
      ReplayTotal(env, EventExec(env, kv, events[0]).kv, events[1..]);
    }
  }

  /** Balances plus fees paid always add up to the balances at the start. */
  lemma SupplyConserved(env: Env, kv: Store, blocks: seq<Block>)
    ensures Total(ApplyChain(env, kv, blocks)) + Fees(ChainEvents(env, kv, blocks)) == Total(kv)
  {
    ChainIsReplay(env, kv, blocks);
    ReplayTotal(env, kv, ChainEvents(env, kv, blocks));
  }

  lemma ActionNeverOverflows(env: Env, kv: Store, h: Height, actor: Address, a: Action)
    requires Total(kv) < TWO_TO_64
    ensures ActionExec(env, Everything, kv, h, actor, a).Fail? ==>
      ActionExec(env, Everything, kv, h, actor, a).err != CouldNotAdd
  {
    match a
    case Transfer(to, value, _) =>
      if SubBalanceExec(env, Everything, kv, actor, value).Done? {
        AddAfterSub(env, kv, actor, to, value);
      }
    case Auction(info, _, _) =>
      if SubBalanceExec(env, Everything, kv, info.builder, info.bidPrice).Done? {
        AddAfterSub(env, kv, info.builder, ArcadiaFundAddress(), info.bidPrice);
      }
    case Register(r) =>
    case Exit(_, _, _) =>
    case SequencerMsg =>
  }

  lemma {:induction false} ActionsNeverOverflow(env: Env, kv: Store, h: Height, actor: Address, actions: seq<Action>)
    requires Total(kv) < TWO_TO_64
    ensures ActionsExec(env, Everything, kv, h, actor, actions).Fail? ==>
      ActionsExec(env, Everything, kv, h, actor, actions).err != CouldNotAdd
    decreases actions
  {
    if actions != [] {
      var e := Act(h, actor, actions[0]);
      ActionNeverOverflows(env, kv, h, actor, actions[0]);
      if EventExec(env, kv, e).Done? {
        EventTotal(env, kv, e);
        ActionsNeverOverflow(env, EventExec(env, kv, e).kv, h, actor, actions[1..]);
      }
    }
  }

  /** Starting from a supply that fits 64 bits, no transaction ever fails because a balance would overflow. */
  lemma NoOverflow(env: Env, kv: Store, blocks: seq<Block>, h: Height, tx: Tx)
    requires Total(kv) < TWO_TO_64
    ensures ApplyTx(env, ApplyChain(env, kv, blocks), h, tx).verdict != Failed(CouldNotAdd)
  {
    var s := ApplyChain(env, kv, blocks);
    SupplyConserved(env, kv, blocks);
    ConfinementIsInvisible(env, s, h, tx);
    var fee := Fee(tx.sponsor, tx.fee);
    var paid := EventExec(env, s, fee);
    if paid.Done? {
      EventTotal(env, s, fee);
      ActionsNeverOverflow(env, paid.kv, h, tx.actor, tx.actions);
    }
  }

  // ---------- controller/state_manager.go ----------

  /** `CanDeduct`: reads the balance only. */
  method CanDeduct(mu: StateView, addr: Address, amount: uint64) returns (err: Option<Error>)
    ensures mu.scope.MayRead(BalanceKey(addr)) ==> (err.None? <==> amount <= BalanceOf(mu.kv, addr))
    ensures !mu.scope.MayRead(BalanceKey(addr)) ==> err == Some(InvalidKeyOrValue)
  {
    var bal, _, e := GetBalance(mu, addr);
    if e.Some? {
      return e;
    }
    if bal < amount {
      return Some(CouldNotSubtract);
    }
    return None;
  }

  method Deduct(mu: StateView, addr: Address, amount: uint64) returns (err: Option<Error>)
    modifies mu`kv
    ensures Outcome(mu.kv, err) == DeductExec(mu.env, mu.scope, old(mu.kv), addr, amount)
  {
    err := SubBalance(mu, addr, amount);
  }

  /** With the sponsor's declared keys, a fee can be deducted exactly when `CanDeduct` says so. */
  lemma CanDeductIffDeduct(env: Env, sc: Scope, kv: Store, addr: Address, amount: uint64)
    requires Covers(sc, SponsorStateKeys(addr))
    ensures DeductExec(env, sc, kv, addr, amount).Done? <==> amount <= BalanceOf(kv, addr)
    ensures DeductExec(env, sc, kv, addr, amount).Done? ==>
      BalanceOf(DeductExec(env, sc, kv, addr, amount).kv, addr) + amount == BalanceOf(kv, addr)
  {
    SponsorKeysSuffice(env, sc, kv, addr, amount);
  }

  // ---------- genesis/genesis.go ----------

  /** A custom allocation; None stands for an address that does not parse. */
  datatype Allocation = Allocation(address: Option<Address>, balance: uint64)

  datatype GenesisError = BadBranchFactor | BadAddress | SupplyOverflow

  function Allocated(allocs: seq<Allocation>): nat {
    if allocs == [] then 0 else Allocated(allocs[..|allocs| - 1]) + allocs[|allocs| - 1].balance
  }

  /** The last balance allocated to the address. */
  function LastBalance(allocs: seq<Allocation>, a: Address): uint64 {
    if allocs == [] then 0
    else if allocs[|allocs| - 1].address == Some(a) then allocs[|allocs| - 1].balance
    else LastBalance(allocs[..|allocs| - 1], a)
  }

  /** What is allocated by two lists is what each allocates. */
  lemma {:induction false} AllocatedConcat(a: seq<Allocation>, b: seq<Allocation>)
    ensures Allocated(a + b) == Allocated(a) + Allocated(b)
    decreases |b|
  {
    if b == [] {
      assert a + b == a;
    } else {
      assert (a + b)[..|a + b| - 1] == a + b[..|b| - 1];
      AllocatedConcat(a, b[..|b| - 1]);
    }
  }

  lemma AllocatedOne(x: Allocation)
    ensures Allocated([x]) == x.balance
  {
    assert [x][..0] == [];
  }

  /** Allocation i has an address that no later one has. */
  ghost predicate IsLastOf(allocs: seq<Allocation>, i: int) {
    && 0 <= i < |allocs| && allocs[i].address.Some?
    && forall j :: i < j < |allocs| ==> allocs[j].address != allocs[i].address
  }

  lemma {:induction false} LastBalanceIs(allocs: seq<Allocation>, i: nat)
    requires IsLastOf(allocs, i)
    ensures LastBalance(allocs, allocs[i].address.value) == allocs[i].balance
  {
    if i < |allocs| - 1 {
      LastBalanceIs(allocs[..|allocs| - 1], i);
    }
  }

  /** No allocation but the last one of its address is worth anything. */
  ghost predicate NothingShadowed(allocs: seq<Allocation>) {
    forall i, j :: 0 <= i < j < |allocs| && allocs[i].address == allocs[j].address ==> allocs[i].balance == 0
  }

  lemma {:induction false} LastBalanceZero(allocs: seq<Allocation>, a: Address)
    ensures LastBalance(allocs, a) == 0 || exists i :: 0 <= i < |allocs| && allocs[i].address == Some(a) && allocs[i].balance != 0
    ensures NothingShadowed(allocs) && LastBalance(allocs, a) == 0 ==>
      forall i :: 0 <= i < |allocs| && allocs[i].address == Some(a) ==> allocs[i].balance == 0
  {
    if allocs != [] {
      var n := |allocs| - 1;
      LastBalanceZero(allocs[..n], a);
      if i :| 0 <= i < n && allocs[..n][i].address == Some(a) && allocs[..n][i].balance != 0 {
        assert allocs[i].address == Some(a) && allocs[i].balance != 0;
      }
    }
  }

  /**
    The balances of a loaded genesis: every address has what was last allocated to it, all balances
    together are at most what was allocated, and exactly that if and only if nothing is shadowed.
   */
  ghost predicate Loaded(kv: Store, allocs: seq<Allocation>) {
    && (forall a :: BalanceOf(kv, a) == LastBalance(allocs, a))
    && (forall k :: k in kv ==> k.BalanceKey?)
    && Total(kv) <= Allocated(allocs)
    && (Total(kv) == Allocated(allocs) <==> NothingShadowed(allocs))
  }

  /**
    `Load`: fails on a bad branch factor, on an address that does not parse and on a supply beyond 64
    bits, and otherwise loads the allocations.
   */
  method Load(mu: StateView, branchFactorValid: bool, allocs: seq<Allocation>) returns (err: Option<GenesisError>)
    requires mu.scope == Everything && mu.kv == map[]
    modifies mu`kv
    ensures err.None? <==>
      branchFactorValid && Allocated(allocs) < TWO_TO_64 && forall i :: 0 <= i < |allocs| ==> allocs[i].address.Some?
    ensures err.None? ==> Loaded(mu.kv, allocs)
    ensures err.None? ==> forall i :: IsLastOf(allocs, i) ==> BalanceOf(mu.kv, allocs[i].address.value) == allocs[i].balance
    ensures err == Some(BadBranchFactor) <==> !branchFactorValid
    ensures err == Some(BadAddress) ==> exists i :: 0 <= i < |allocs| && allocs[i].address.None?
    ensures err == Some(SupplyOverflow) ==> Allocated(allocs) >= TWO_TO_64
  {
    if !branchFactorValid {
      return Some(BadBranchFactor);
    }
    var supply: uint64 := 0;
    SumZero(mu.kv, mu.kv.Keys);
    for i := 0 to |allocs|
      invariant supply == Allocated(allocs[..i])
      invariant forall j :: 0 <= j < i ==> allocs[j].address.Some?
      invariant Loaded(mu.kv, allocs[..i])
    {
      var alloc := allocs[i];
      assert allocs[..i + 1] == allocs[..i] + [alloc];
      if alloc.address.None? {
        return Some(BadAddress);
      }
      var sum := Add64(supply, alloc.balance);
      if sum.None? {
        AllocatedPrefix(allocs, i + 1);
        return Some(SupplyOverflow);
      }
      supply := sum.value;
      LoadOne(mu.kv, allocs[..i], alloc);
      var e := SetBalance(mu, alloc.address.value, alloc.balance);
      assert e.None?;
    }
    assert allocs[..|allocs|] == allocs;
    forall i | IsLastOf(allocs, i)
      ensures BalanceOf(mu.kv, allocs[i].address.value) == allocs[i].balance
    {
      LastBalanceIs(allocs, i);
    }
    return None;
  }

  lemma LoadOne(kv: Store, allocs: seq<Allocation>, next: Allocation)
    requires Loaded(kv, allocs) && next.address.Some?
    ensures Loaded(kv[BalanceKey(next.address.value) := Balance(next.balance)], allocs + [next])
    ensures Allocated(allocs + [next]) == Allocated(allocs) + next.balance
  {
    var k := BalanceKey(next.address.value);
    var kv' := kv[k := Balance(next.balance)];
    var all := allocs + [next];
    TotalMoves(kv, kv', k);
    ShadowStep(allocs, next);
    assert all[..|allocs|] == allocs && all[|allocs|] == next;
    forall a
      ensures BalanceOf(kv', a) == LastBalance(all, a)
    {
      assert BalanceOf(kv, a) == LastBalance(allocs, a);
    }
    assert AmountAt(kv, k) == LastBalance(allocs, next.address.value);
  }

  lemma {:induction false} AllocatedPrefix(allocs: seq<Allocation>, n: nat)
    requires n <= |allocs|
    ensures Allocated(allocs[..n]) <= Allocated(allocs)
    decreases |allocs| - n
  {
    if n < |allocs| {
      assert allocs[..n + 1][..n] == allocs[..n];
      AllocatedPrefix(allocs, n + 1);
    } else {
      assert allocs[..n] == allocs;
    }
  }

  /** One more allocation shadows something exactly when its address already has a balance. */
  lemma ShadowStep(allocs: seq<Allocation>, next: Allocation)
    requires next.address.Some?
    ensures NothingShadowed(allocs + [next]) <==>
      NothingShadowed(allocs) && LastBalance(allocs, next.address.value) == 0
  {
    var a, all := next.address.value, allocs + [next];
    LastBalanceZero(allocs, a);
    assert all[|allocs|] == next && forall i :: 0 <= i < |allocs| ==> all[i] == allocs[i];
    if NothingShadowed(all) {
      assert forall i, j :: 0 <= i < j < |allocs| ==> all[i] == allocs[i] && all[j] == allocs[j];
    }
  }
}
