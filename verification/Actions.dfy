/**
  What each action does to the state, as a function of the state it starts from, together with the
  keys the action declares. The methods in ActionMethods.dfy are proved against these functions.
 */
module Actions {
  import opened Base
  import opened ChainState
  import opened Balances
  import opened Words

  const CREATE_ROLLUP := 0
  const EXIT_ROLLUP := 1
  const UPDATE_ROLLUP := 2

  const CREATE_EXIT := 0
  const DELETE_EXIT := 1

  const MAX_MEMO_SIZE := 256
  const BLS_ID: byte := 1

  datatype Registration = Registration(info: RollupInfo, namespace: Namespace, opCode: int)
  datatype AuctionInfo = AuctionInfo(epochNumber: uint64, bidPrice: uint64, builder: Address)

  datatype Action =
    | Transfer(to: Address, value: uint64, memo: seq<byte>)
    | Auction(auction: AuctionInfo, publicKey: seq<byte>, signature: seq<byte>)
    | Register(reg: Registration)
    | Exit(exit: EpochInfo, epoch: uint64, opCode: int)
    | SequencerMsg

  // ---------- actions/utils.go ----------

  /** `ArcadiaFundAddress`: 32 zero bytes and a final 1. */
  function ArcadiaFundAddress(): Address {
    seq(32, _ => 0) + [1]
  }

  lemma FundAddressBytes()
    ensures forall i :: 0 <= i < 32 ==> ArcadiaFundAddress()[i] == 0
    ensures ArcadiaFundAddress()[32] == 1
  {
  }

  /** `codec.CreateAddress`. */
  function CreateAddress(typeID: byte, id: ID): Address {
    [typeID] + id
  }

  /** `authorizationChecks`: None when the actor is the stored authority of a registered namespace. */
  function AuthorizationError(sc: Scope, kv: Store, actor: Address, registered: seq<Namespace>, ns: Namespace)
    : Option<Error>
  {
    if ns !in registered then Some(NamespaceNotRegistered)
    else if !sc.MayRead(InfoKey(ns)) then Some(InvalidKeyOrValue)
    else match InfoOf(kv, ns)
      case None => Some(NilDereference)
      case Some(info) => if info.authority != actor then Some(NotAuthorized) else None
  }

  // ---------- actions/transfer.go ----------

  function TransferExec(
    env: Env, sc: Scope, kv: Store, actor: Address, to: Address, value: uint64, memo: seq<byte>): Exec
  {
    if value == 0 then Fail(kv, OutputValueZero)
    else if |memo| > MAX_MEMO_SIZE then Fail(kv, OutputMemoTooLarge)
    else
      var paid :- SubBalanceExec(env, sc, kv, actor, value);
      AddBalanceExec(env, sc, paid, to, value, true)
  }

  // ---------- actions/auction.go ----------

  /** The message a bidder signs: epoch and price as big-endian words, then the builder address. */
  function AuctionMessage(a: AuctionInfo): seq<byte> {
    Word64(a.epochNumber) + Word64(a.bidPrice) + a.builder
  }

  /** `HashAuctionInfo`. */
  function HashAuctionInfo(env: Env, a: AuctionInfo): seq<byte> {
    env.crypto.sha256(AuctionMessage(a))
  }

  /** The signed message determines every field of the bid. */
  lemma AuctionMessageInjective(a: AuctionInfo, b: AuctionInfo)
    requires AuctionMessage(a) == AuctionMessage(b)
    ensures a == b
  {
    var m, n := AuctionMessage(a), AuctionMessage(b);
    assert m[..8] == Word64(a.epochNumber) && n[..8] == Word64(b.epochNumber);
    assert m[8..16] == Word64(a.bidPrice) && n[8..16] == Word64(b.bidPrice);
    assert m[16..] == a.builder && n[16..] == b.builder;
  }

  /** The bytes of the message: two big-endian words, then the address. */
  lemma AuctionMessageLayout(a: AuctionInfo)
    ensures var m := AuctionMessage(a);
      && |m| == 49
      && FromBigEndian(m[..8]) == a.epochNumber && FromBigEndian(m[8..16]) == a.bidPrice && m[16..] == a.builder
  {
    var m := AuctionMessage(a);
    assert m[..8] == Word64(a.epochNumber) && m[8..16] == Word64(a.bidPrice) && m[16..] == a.builder;
  }

  /** What is hashed is the one string of 49 bytes that reads as the epoch, the price and the builder's address. */
  lemma DigestPreimage(env: Env, a: AuctionInfo, m: seq<byte>)
    requires |m| == 49
    requires FromBigEndian(m[..8]) == a.epochNumber && FromBigEndian(m[8..16]) == a.bidPrice && m[16..] == a.builder
    ensures HashAuctionInfo(env, a) == env.crypto.sha256(m)
  {
    EncodeDecode(m[..8]);
    EncodeDecode(m[8..16]);
    assert m == m[..8] + m[8..16] + m[16..];
  }

  /**
    Two different bids with one digest exhibit a collision of the hash: a signature is for one epoch,
    price and builder.
   */
  lemma DigestBinding(env: Env, a: AuctionInfo, b: AuctionInfo) returns (x: seq<byte>, y: seq<byte>)
    requires a != b && HashAuctionInfo(env, a) == HashAuctionInfo(env, b)
    ensures x != y && env.crypto.sha256(x) == env.crypto.sha256(y)
  {
    x, y := AuctionMessage(a), AuctionMessage(b);
    if x == y {
      AuctionMessageInjective(a, b);
    }
  }

  /** The checks of `Auction.Execute` that come before any state is touched. */
  function AuctionError(env: Env, h: uint64, actor: Address, a: AuctionInfo, pk: seq<byte>, sig: seq<byte>)
    : Option<Error>
  {
    if actor !in env.whitelist then Some(NotWhiteListed)
    else if a.epochNumber != Later(Epoch(h, env), 1) then Some(EpochNotValid)
    else if !env.crypto.parsesKey(pk) then Some(BadPublicKey)
    else if !env.crypto.parsesSignature(sig) then Some(BadSignature)
    else if !env.crypto.verifies(HashAuctionInfo(env, a), pk, sig) then Some(InvalidBidderSignature)
    else if CreateAddress(BLS_ID, env.crypto.toID(pk)) != a.builder then Some(BuilderAddressMismatch)
    else None
  }

  function AuctionExec(
    env: Env, sc: Scope, kv: Store, h: uint64, actor: Address, a: AuctionInfo, pk: seq<byte>, sig: seq<byte>): Exec
  {
    var error := AuctionError(env, h, actor, a, pk, sig);
    if error.Some? then Fail(kv, error.value)
    else
      var paid :- SubBalanceExec(env, sc, kv, a.builder, a.bidPrice);
      var funded :- AddBalanceExec(env, sc, paid, ArcadiaFundAddress(), a.bidPrice, true);
      InsertExec(env, sc, funded, BidKey(a.epochNumber), BidRecord(Bid(a.bidPrice, pk, sig)))
  }

  // ---------- actions/rollup_register.go ----------

  /** How `RollupRegistration.Execute` ends, and the info its action holds afterwards. */
  datatype RegisterResult = RegisterResult(exec: Exec, info: RollupInfo)

  function StoreRegistration(env: Env, sc: Scope, kv: Store, info: RollupInfo, registered: seq<Namespace>): Exec {
    var s :- InsertExec(env, sc, kv, InfoKey(info.namespace), Info(info));
    InsertExec(env, sc, s, RegistryKey, Registry(registered))
  }

  function CreateExec(env: Env, sc: Scope, kv: Store, h: uint64, actor: Address, info: RollupInfo): Exec {
    var registered := RegistryOf(kv);
    var known := info.namespace in registered;
    var error := if known then AuthorizationError(sc, kv, actor, registered, info.namespace) else None;
    if error.Some? then Fail(kv, error.value)
    else if info.startEpoch < Later(Epoch(h, env), 2) || info.exitEpoch != 0 then Fail(kv, EpochNotValid)
    else StoreRegistration(env, sc, kv, info, if known then registered else registered + [info.namespace])
  }

  /** UPDATE keeps both stored epochs, whatever the action carried. */
  function UpdateExec(env: Env, sc: Scope, kv: Store, actor: Address, info: RollupInfo): RegisterResult {
    var registered := RegistryOf(kv);
    var error := AuthorizationError(sc, kv, actor, registered, info.namespace);
    if error.Some? then RegisterResult(Fail(kv, error.value), info)
    else
      var stored := InfoOf(kv, info.namespace).value;
      var rewritten := info.(exitEpoch := stored.exitEpoch, startEpoch := stored.startEpoch);
      RegisterResult(StoreRegistration(env, sc, kv, rewritten, registered), rewritten)
  }

  /** EXIT keeps the stored start epoch and sets the exit epoch the action carries. */
  function ExitExec(env: Env, sc: Scope, kv: Store, h: uint64, actor: Address, info: RollupInfo): RegisterResult {
    var registered := RegistryOf(kv);
    var error := AuthorizationError(sc, kv, actor, registered, info.namespace);
    if error.Some? then RegisterResult(Fail(kv, error.value), info)
    else
      var stored := InfoOf(kv, info.namespace).value;
      if info.exitEpoch < stored.startEpoch || info.exitEpoch < Later(Epoch(h, env), 2)
      then RegisterResult(Fail(kv, EpochNotValid), info)
      else
        var rewritten := info.(startEpoch := stored.startEpoch);
        RegisterResult(StoreRegistration(env, sc, kv, rewritten, registered), rewritten)
  }

  function RegisterExec(env: Env, sc: Scope, kv: Store, h: uint64, actor: Address, r: Registration): RegisterResult {
    if r.namespace != r.info.namespace then RegisterResult(Fail(kv, NamespaceMismatch), r.info)
    else if |r.namespace| > env.maxNamespaceLen then RegisterResult(Fail(kv, NamespaceTooLong), r.info)
    else if !sc.MayRead(RegistryKey) then RegisterResult(Fail(kv, InvalidKeyOrValue), r.info)
    else if r.opCode == CREATE_ROLLUP then RegisterResult(CreateExec(env, sc, kv, h, actor, r.info), r.info)
    else if r.opCode == UPDATE_ROLLUP then UpdateExec(env, sc, kv, actor, r.info)
    else if r.opCode == EXIT_ROLLUP then ExitExec(env, sc, kv, h, actor, r.info)
    else RegisterResult(Fail(kv, OpCodeNotSupported), r.info)
  }

  // ---------- actions/epoch_exit.go ----------

  /** The position of the first entry for ns, or |exits|. */
  function FirstExit(exits: seq<EpochInfo>, ns: Namespace): (i: nat)
    ensures i <= |exits|
    ensures i < |exits| ==> exits[i].namespace == ns
    ensures forall j :: 0 <= j < i ==> exits[j].namespace != ns
  {
    if exits == [] || exits[0].namespace == ns then 0 else 1 + FirstExit(exits[1..], ns)
  }

  /** What a permitted epoch exit does to the list of its epoch. */
  function ExitListExec(env: Env, sc: Scope, kv: Store, info: EpochInfo, epoch: uint64, opCode: int): Exec {
    if !sc.MayRead(ExitsKey(epoch)) then Fail(kv, InvalidKeyOrValue)
    else
      var exits := ExitsOf(kv, epoch);
      var i := FirstExit(exits, info.namespace);
      if opCode == CREATE_EXIT then
        if i < |exits| then Fail(kv, ExitAlreadyExists)
        else InsertExec(env, sc, kv, ExitsKey(epoch), Exits(exits + [info]))
      else if opCode == DELETE_EXIT then
        if i == |exits| then Fail(kv, ExitNotFound)
        else InsertExec(env, sc, kv, ExitsKey(epoch), Exits(exits[..i] + exits[i + 1..]))
      else Fail(kv, OpCodeNotSupported)
  }

  function EpochExitExec(
    env: Env, sc: Scope, kv: Store, actor: Address, info: EpochInfo, epoch: uint64, opCode: int): Exec
  {
    if epoch != info.epoch then Fail(kv, EpochMismatch)
    else if !sc.MayRead(RegistryKey) then Fail(kv, InvalidKeyOrValue)
    else
      var error := AuthorizationError(sc, kv, actor, RegistryOf(kv), info.namespace);
      if error.Some? then Fail(kv, error.value) else ExitListExec(env, sc, kv, info, epoch, opCode)
  }

  // ---------- every action ----------

  function ActionExec(env: Env, sc: Scope, kv: Store, h: uint64, actor: Address, a: Action): Exec {
    match a
    case Transfer(to, value, memo) => TransferExec(env, sc, kv, actor, to, value, memo)
    case Auction(info, pk, sig) => AuctionExec(env, sc, kv, h, actor, info, pk, sig)
    case Register(r) => RegisterExec(env, sc, kv, h, actor, r).exec
    case Exit(info, epoch, op) => EpochExitExec(env, sc, kv, actor, info, epoch, op)
    case SequencerMsg => Done(kv)
  }

  /** `StateKeys`: a repeated key keeps the permission listed last. */
  function StateKeys(actor: Address, a: Action): map<Key, Perm> {
    match a
    case Transfer(to, _, _) => map[BalanceKey(actor) := READ_WRITE][BalanceKey(to) := ALL]
    case Auction(info, _, _) =>
      map[BalanceKey(info.builder) := READ_WRITE][BalanceKey(ArcadiaFundAddress()) := ALL]
         [BidKey(info.epochNumber) := WRITE_ALLOCATE]
    case Register(r) => map[InfoKey(r.namespace) := ALL][RegistryKey := ALL]
    case Exit(info, epoch, _) =>
      map[ExitsKey(epoch) := ALL][InfoKey(info.namespace) := READ][RegistryKey := READ]
    case SequencerMsg => map[]
  }

  /** `SponsorStateKeys`. */
  function SponsorStateKeys(sponsor: Address): map<Key, Perm> {
    map[BalanceKey(sponsor) := READ_WRITE]
  }
}
