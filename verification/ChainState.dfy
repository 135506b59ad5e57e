/**
  The key/value state of the chain, the permissions a transaction declares on it, and the mutable
  view through which an action reads and writes it.
 */
module ChainState {
  import opened Base

  /** `codec.Address`: a type byte followed by a 32-byte id. */
  type Address = s: seq<byte> | |s| == 33 witness seq(33, _ => 0)
  type ID = s: seq<byte> | |s| == 32 witness seq(32, _ => 0)
  type Namespace = seq<byte>

  /** A height at which a run may have a block: its epoch plus two still fits in 64 bits. */
  type Height = h: int | 0 <= h < TWO_TO_64 - 2
  type EpochLength = n: int | 1 <= n < 0x8000_0000_0000_0000 witness 1

  datatype RollupInfo = RollupInfo(
    namespace: Namespace,
    feeRecipient: Address,
    authority: Address,
    sequencerPublicKey: seq<byte>,
    startEpoch: uint64,
    exitEpoch: uint64)
  {
    predicate ValidAtEpoch(e: int) {
      startEpoch <= e && (exitEpoch == 0 || e < exitEpoch)
    }

    predicate Exited(current: int) {
      exitEpoch != 0 && exitEpoch <= current
    }
  }

  datatype EpochInfo = EpochInfo(epoch: uint64, namespace: Namespace)
  datatype Bid = Bid(price: uint64, publicKey: seq<byte>, signature: seq<byte>)

  datatype Key =
    | BalanceKey(addr: Address)
    | RegistryKey
    | InfoKey(namespace: Namespace)
    | ExitsKey(epoch: uint64)
    | BidKey(epoch: uint64)

  datatype Value =
    | Balance(amount: uint64)
    | Registry(namespaces: seq<Namespace>)
    | Info(info: RollupInfo)
    | Exits(exits: seq<EpochInfo>)
    | BidRecord(bid: Bid)

  predicate KindMatches(k: Key, v: Value) {
    match k
    case BalanceKey(_) => v.Balance?
    case RegistryKey => v.Registry?
    case InfoKey(_) => v.Info?
    case ExitsKey(_) => v.Exits?
    case BidKey(_) => v.BidRecord?
  }

  ghost predicate WellTyped(m: map<Key, Value>) {
    forall k :: k in m ==> KindMatches(k, m[k])
  }

  type Store = m: map<Key, Value> | WellTyped(m) witness map[]

  // ---------- what each kind of record reads as; an absent record reads as its empty value ----------

  function BalanceOf(kv: Store, a: Address): uint64 {
    if BalanceKey(a) in kv then kv[BalanceKey(a)].amount else 0
  }

  function RegistryOf(kv: Store): seq<Namespace> {
    if RegistryKey in kv then kv[RegistryKey].namespaces else []
  }

  function InfoOf(kv: Store, ns: Namespace): Option<RollupInfo> {
    if InfoKey(ns) in kv then Some(kv[InfoKey(ns)].info) else None
  }

  function ExitsOf(kv: Store, epoch: uint64): seq<EpochInfo> {
    if ExitsKey(epoch) in kv then kv[ExitsKey(epoch)].exits else []
  }

  function BidOf(kv: Store, epoch: uint64): Option<Bid> {
    if BidKey(epoch) in kv then Some(kv[BidKey(epoch)].bid) else None
  }

  // ---------- permissions ----------

  datatype Perm = Perm(read: bool, write: bool, allocate: bool)

  const READ := Perm(true, false, false)
  const READ_WRITE := Perm(true, true, false)
  const WRITE_ALLOCATE := Perm(false, true, true)
  const ALL := Perm(true, true, true)

  /** The keys a view may touch: all of them, or the declared ones with the declared permissions. */
  datatype Scope = Everything | Only(keys: map<Key, Perm>)
  {
    predicate MayRead(k: Key) {
      Everything? || (k in keys && keys[k].read)
    }

    predicate MayWrite(k: Key) {
      Everything? || (k in keys && keys[k].write)
    }

    predicate MayAllocate(k: Key) {
      Everything? || (k in keys && keys[k].allocate)
    }
  }

  // ---------- the chain's rules and the primitives it takes from elsewhere ----------

  /** BLS and hashing primitives, left uninterpreted. */
  datatype Crypto = Crypto(
    parsesKey: seq<byte> -> bool,
    parsesSignature: seq<byte> -> bool,
    verifies: (seq<byte>, seq<byte>, seq<byte>) -> bool,
    sha256: seq<byte> -> seq<byte>,
    toID: seq<byte> -> ID)

  /**
    The genesis rules. `fits` is the size limit on stored records (packer limits and the chunk
    suffix of a key); only statements that an action succeeds depend on what it answers.
   */
  datatype Env = Env(
    epochLength: EpochLength,
    maxNamespaceLen: nat,
    whitelist: seq<Address>,
    fits: (Key, Value) -> bool,
    crypto: Crypto)

  function Epoch(h: uint64, env: Env): (e: uint64)
    ensures e * env.epochLength <= h < (e + 1) * env.epochLength
    ensures e <= h
  {
    EpochBounds(h, env.epochLength);
    h / env.epochLength
  }

  /** e + n in 64-bit arithmetic, which wraps around. */
  function Later(e: uint64, n: uint64): (r: uint64)
    ensures r - n == if e + n < TWO_TO_64 then e else e - TWO_TO_64
  {
    if e + n < TWO_TO_64 then e + n else e + n - TWO_TO_64
  }

  lemma EpochBounds(h: int, len: int)
    requires 0 <= h && 1 <= len
    ensures (h / len) * len <= h < (h / len + 1) * len
    ensures 0 <= h / len <= h
  {
    assert h == (h / len) * len + h % len;
  }

  lemma EpochMonotone(env: Env, g: uint64, h: uint64)
    requires g <= h
    ensures Epoch(g, env) <= Epoch(h, env)
  {
    ProductOrder(Epoch(g, env), Epoch(h, env) + 1, env.epochLength);
  }

  // ---------- outcomes ----------

  datatype Error =
    | InvalidKeyOrValue
    | CouldNotSubtract
    | CouldNotAdd
    | OutputValueZero
    | OutputMemoTooLarge
    | NotWhiteListed
    | EpochNotValid
    | BadPublicKey
    | BadSignature
    | InvalidBidderSignature
    | BuilderAddressMismatch
    | NamespaceMismatch
    | NamespaceTooLong
    | NamespaceNotRegistered
    | NotAuthorized
    | EpochMismatch
    | ExitAlreadyExists
    | ExitNotFound
    | OpCodeNotSupported
    | NilDereference   // a missing rollup info is dereferenced: the Go program panics

  /** How a state-changing call ends; a failed call may leave some of its writes behind. */
  datatype Exec = Done(kv: Store) | Fail(kv: Store, err: Error)
  {
    predicate IsFailure() {
      Fail?
    }

    function PropagateFailure(): Exec
      requires Fail?
    {
      this
    }

    function Extract(): Store
      requires Done?
    {
      kv
    }
  }

  function Outcome(kv: Store, err: Option<Error>): Exec {
    if err.None? then Done(kv) else Fail(kv, err.value)
  }

  // ---------- the two writes a view offers ----------

  predicate Fits(env: Env, k: Key, v: Value) {
    k.BalanceKey? || env.fits(k, v)
  }

  function InsertExec(env: Env, sc: Scope, kv: Store, k: Key, v: Value): Exec
    requires KindMatches(k, v)
  {
    if !sc.MayWrite(k) || (k !in kv && !sc.MayAllocate(k)) || !Fits(env, k, v)
    then Fail(kv, InvalidKeyOrValue)
    else Done(kv[k := v])
  }

  function RemoveExec(sc: Scope, kv: Store, k: Key): Exec {
    if !sc.MayWrite(k) then Fail(kv, InvalidKeyOrValue) else Done(kv - {k})
  }

  /** `state.Mutable`: the view of the state that an action executes against. */
  class StateView {
    const env: Env
    const scope: Scope
    var kv: Store

    constructor (env: Env, scope: Scope, kv: Store)
      ensures this.env == env && this.scope == scope && this.kv == kv
    {
      this.env, this.scope, this.kv := env, scope, kv;
    }

    method GetValue(k: Key) returns (v: Option<Value>, err: Option<Error>)
      ensures err == if scope.MayRead(k) then None else Some(InvalidKeyOrValue)
      ensures err.None? ==> v == if k in kv then Some(kv[k]) else None
    {
      if !scope.MayRead(k) {
        return None, Some(InvalidKeyOrValue);
      }
      if k in kv {
        return Some(kv[k]), None;
      }
      return None, None;
    }

    method Insert(k: Key, v: Value) returns (err: Option<Error>)
      requires KindMatches(k, v)
      modifies this`kv
      ensures Outcome(kv, err) == InsertExec(env, scope, old(kv), k, v)
    {
      if !scope.MayWrite(k) || (k !in kv && !scope.MayAllocate(k)) || !Fits(env, k, v) {
        return Some(InvalidKeyOrValue);
      }
      kv := kv[k := v];
      return None;
    }

    method Remove(k: Key) returns (err: Option<Error>)
      modifies this`kv
      ensures Outcome(kv, err) == RemoveExec(scope, old(kv), k)
    {
      if !scope.MayWrite(k) {
        return Some(InvalidKeyOrValue);
      }
      kv := kv - {k};
      return None;
    }
  }
}
