/**
  The `Execute` methods of the actions, step by step against a mutable view. Each is proved to end
  in the state, with the error, and for a registration with the rewritten info, that Actions.dfy
  describes: also when it fails half way.
 */
module ActionMethods {
  import opened Base
  import opened ChainState
  import opened Balances
  import opened Actions

  /** `contains`. */
  method Contains(arr: seq<Namespace>, ns: Namespace) returns (found: bool)
    ensures found <==> ns in arr
  {
    for i := 0 to |arr|
      invariant ns !in arr[..i]
    {
      if arr[i] == ns {
        return true;
      }
    }
    return false;
  }

  /** `isWhiteListed`, with the scan of `containsAddress`. */
  method IsWhiteListed(env: Env, actor: Address) returns (found: bool)
    ensures found <==> actor in env.whitelist
  {
    for i := 0 to |env.whitelist|
      invariant actor !in env.whitelist[..i]
    {
      if env.whitelist[i] == actor {
        return true;
      }
    }
    return false;
  }

  method GetRollupRegistry(mu: StateView) returns (nss: seq<Namespace>, err: Option<Error>)
    ensures err == if mu.scope.MayRead(RegistryKey) then None else Some(InvalidKeyOrValue)
    ensures err.None? ==> nss == RegistryOf(mu.kv)
  {
    var v, e := mu.GetValue(RegistryKey);
    if e.Some? || v.None? {
      return [], e;
    }
    return v.value.namespaces, None;
  }

  /** An absent record comes back as no info and no error. */
  method GetRollupInfo(mu: StateView, ns: Namespace) returns (info: Option<RollupInfo>, err: Option<Error>)
    ensures err == if mu.scope.MayRead(InfoKey(ns)) then None else Some(InvalidKeyOrValue)
    ensures err.None? ==> info == InfoOf(mu.kv, ns)
  {
    var v, e := mu.GetValue(InfoKey(ns));
    if e.Some? || v.None? {
      return None, e;
    }
    return Some(v.value.info), None;
  }

  /** `authorizationChecks`. */
  method AuthorizationChecks(mu: StateView, actor: Address, namespaces: seq<Namespace>, ns: Namespace)
    returns (err: Option<Error>)
    ensures err == AuthorizationError(mu.scope, mu.kv, actor, namespaces, ns)
  {
    var registered := Contains(namespaces, ns);
    if !registered {
      return Some(NamespaceNotRegistered);
    }
    var info, e := GetRollupInfo(mu, ns);
    if e.Some? {
      return e;
    }
    if info.None? {
      return Some(NilDereference);
    }
    if info.value.authority != actor {
      return Some(NotAuthorized);
    }
    return None;
  }

  class TransferAction {
    const to: Address
    const value: uint64
    const memo: seq<byte>

    constructor (to: Address, value: uint64, memo: seq<byte>)
      ensures this.to == to && this.value == value && this.memo == memo
    {
      this.to, this.value, this.memo := to, value, memo;
    }

    method Execute(mu: StateView, actor: Address) returns (err: Option<Error>)
      modifies mu`kv
      ensures Outcome(mu.kv, err) == TransferExec(mu.env, mu.scope, old(mu.kv), actor, to, value, memo)
    {
      if value == 0 {
        return Some(OutputValueZero);
      }
      if |memo| > MAX_MEMO_SIZE {
        return Some(OutputMemoTooLarge);
      }
      err := SubBalance(mu, actor, value);
      if err.Some? {
        return;
      }
      err := AddBalance(mu, to, value, true);
    }
  }

  class AuctionAction {
    const info: AuctionInfo
    const publicKey: seq<byte>
    const signature: seq<byte>

    constructor (info: AuctionInfo, publicKey: seq<byte>, signature: seq<byte>)
      ensures this.info == info && this.publicKey == publicKey && this.signature == signature
    {
      this.info, this.publicKey, this.signature := info, publicKey, signature;
    }

    method Execute(mu: StateView, h: uint64, actor: Address) returns (err: Option<Error>)
      modifies mu`kv
      ensures Outcome(mu.kv, err)
           == AuctionExec(mu.env, mu.scope, old(mu.kv), h, actor, info, publicKey, signature)
    {
      var allowed := IsWhiteListed(mu.env, actor);
      if !allowed {
        return Some(NotWhiteListed);
      }
      if info.epochNumber != Later(Epoch(h, mu.env), 1) {
        return Some(EpochNotValid);
      }
      var crypto := mu.env.crypto;
      if !crypto.parsesKey(publicKey) {
        return Some(BadPublicKey);
      }
      var digest := HashAuctionInfo(mu.env, info);
      if !crypto.parsesSignature(signature) {
        return Some(BadSignature);
      }
      if !crypto.verifies(digest, publicKey, signature) {
        return Some(InvalidBidderSignature);
      }
      var builder := CreateAddress(BLS_ID, crypto.toID(publicKey));
      if builder != info.builder {
        return Some(BuilderAddressMismatch);
      }
      err := SubBalance(mu, builder, info.bidPrice);
      if err.Some? {
        return;
      }
      err := AddBalance(mu, ArcadiaFundAddress(), info.bidPrice, true);
      if err.Some? {
        return;
      }
      err := mu.Insert(BidKey(info.epochNumber), BidRecord(Bid(info.bidPrice, publicKey, signature)));
    }
  }

  /** The action whose info `Execute` rewrites in place. */
  class RollupRegistration {
    var info: RollupInfo
    const namespace: Namespace
    const opCode: int

    constructor (info: RollupInfo, namespace: Namespace, opCode: int)
      ensures this.info == info && this.namespace == namespace && this.opCode == opCode
    {
      this.info, this.namespace, this.opCode := info, namespace, opCode;
    }

    function Value(): Registration
      reads this
    {
      Registration(info, namespace, opCode)
    }

    method Execute(mu: StateView, h: uint64, actor: Address) returns (err: Option<Error>)
      modifies mu`kv, this`info
      ensures RegisterResult(Outcome(mu.kv, err), info)
           == RegisterExec(mu.env, mu.scope, old(mu.kv), h, actor, old(Value()))
    {
      if namespace != info.namespace {
        return Some(NamespaceMismatch);
      }
      if |namespace| > mu.env.maxNamespaceLen {
        return Some(NamespaceTooLong);
      }
      var namespaces;
      namespaces, err := GetRollupRegistry(mu);
      if err.Some? {
        return;
      }
      if opCode == CREATE_ROLLUP {
        var known := Contains(namespaces, namespace);
        if !known {
          namespaces := namespaces + [namespace];
        } else {
          err := AuthorizationChecks(mu, actor, namespaces, namespace);
          if err.Some? {
            return;
          }
        }
        if info.startEpoch < Later(Epoch(h, mu.env), 2) || info.exitEpoch != 0 {
          return Some(EpochNotValid);
        }
        err := mu.Insert(InfoKey(namespace), Info(info));
        if err.Some? {
          return;
        }
      } else if opCode == UPDATE_ROLLUP {
        err := AuthorizationChecks(mu, actor, namespaces, namespace);
        if err.Some? {
          return;
        }
        var existing;
        existing, err := GetRollupInfo(mu, namespace);
        if err.Some? {
          return;
        }
        info := info.(exitEpoch := existing.value.exitEpoch);
        info := info.(startEpoch := existing.value.startEpoch);
        err := mu.Insert(InfoKey(namespace), Info(info));
        if err.Some? {
          return;
        }
      } else if opCode == EXIT_ROLLUP {
        err := AuthorizationChecks(mu, actor, namespaces, namespace);
        if err.Some? {
          return;
        }
        var existing;
        existing, err := GetRollupInfo(mu, namespace);
        if err.Some? {
          return;
        }
        if info.exitEpoch < existing.value.startEpoch || info.exitEpoch < Later(Epoch(h, mu.env), 2) {
          return Some(EpochNotValid);
        }
        info := info.(startEpoch := existing.value.startEpoch);
        err := mu.Insert(InfoKey(namespace), Info(info));
        if err.Some? {
          return;
        }
      } else {
        return Some(OpCodeNotSupported);
      }
      err := mu.Insert(RegistryKey, Registry(namespaces));
    }
  }

  class EpochExitAction {
    const info: EpochInfo
    const epoch: uint64
    const opCode: int

    constructor (info: EpochInfo, epoch: uint64, opCode: int)
      ensures this.info == info && this.epoch == epoch && this.opCode == opCode
    {
      this.info, this.epoch, this.opCode := info, epoch, opCode;
    }

    method Execute(mu: StateView, actor: Address) returns (err: Option<Error>)
      modifies mu`kv
      ensures Outcome(mu.kv, err) == EpochExitExec(mu.env, mu.scope, old(mu.kv), actor, info, epoch, opCode)
    {
      if epoch != info.epoch {
        return Some(EpochMismatch);
      }
      var nss;
      nss, err := GetRollupRegistry(mu);
      if err.Some? {
        return;
      }
      err := AuthorizationChecks(mu, actor, nss, info.namespace);
      if err.Some? {
        return;
      }
      err := UpdateExits(mu);
    }

    /** The part of `Execute` from reading the list on. */
    method UpdateExits(mu: StateView) returns (err: Option<Error>)
      modifies mu`kv
      ensures Outcome(mu.kv, err) == ExitListExec(mu.env, mu.scope, old(mu.kv), info, epoch, opCode)
    {
      var v;
      v, err := mu.GetValue(ExitsKey(epoch));
      if err.Some? {
        return;
      }
      var exits := if v.Some? then v.value.exits else [];
      var idx := FindExit(exits, info.namespace);
      if opCode == CREATE_EXIT {
        if idx != -1 {
          return Some(ExitAlreadyExists);
        }
        err := mu.Insert(ExitsKey(epoch), Exits(exits + [info]));
      } else if opCode == DELETE_EXIT {
        if idx == -1 {
          return Some(ExitNotFound);
        }
        err := mu.Insert(ExitsKey(epoch), Exits(exits[..idx] + exits[idx + 1..]));
      } else {
        return Some(OpCodeNotSupported);
      }
    }
  }

  /** The index of the first exit of ns, or -1. */
  method FindExit(exits: seq<EpochInfo>, ns: Namespace) returns (idx: int)
    ensures idx == if FirstExit(exits, ns) < |exits| then FirstExit(exits, ns) else -1
  {
    for i := 0 to |exits|
      invariant forall j :: 0 <= j < i ==> exits[j].namespace != ns
    {
      if exits[i].namespace == ns {
        return i;
      }
    }
    return -1;
  }
}
