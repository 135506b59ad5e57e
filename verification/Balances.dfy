/** storage/balance.go: balances with checked 64-bit arithmetic, deleted when they reach zero. */
module Balances {
  import opened Base
  import opened ChainState

  function SetBalanceExec(env: Env, sc: Scope, kv: Store, a: Address, amount: uint64): Exec {
    InsertExec(env, sc, kv, BalanceKey(a), Balance(amount))
  }

  function AddBalanceExec(env: Env, sc: Scope, kv: Store, a: Address, amount: uint64, create: bool): Exec {
    var k := BalanceKey(a);
    if !sc.MayRead(k) then Fail(kv, InvalidKeyOrValue)
    else if k !in kv && !create then Done(kv)
    else if BalanceOf(kv, a) + amount >= TWO_TO_64 then Fail(kv, CouldNotAdd)
    else SetBalanceExec(env, sc, kv, a, BalanceOf(kv, a) + amount)
  }

  function SubBalanceExec(env: Env, sc: Scope, kv: Store, a: Address, amount: uint64): Exec {
    var k := BalanceKey(a);
    if !sc.MayRead(k) then Fail(kv, InvalidKeyOrValue)
    else if BalanceOf(kv, a) < amount then Fail(kv, CouldNotSubtract)
    else if BalanceOf(kv, a) == amount then RemoveExec(sc, kv, k)
    else SetBalanceExec(env, sc, kv, a, BalanceOf(kv, a) - amount)
  }

  /** Adding puts the sum on record unless it overflows; without a record it adds only when asked to create one. */
  lemma AddOutcome(env: Env, kv: Store, a: Address, amount: uint64, create: bool)
    ensures var sum := BalanceOf(kv, a) + amount;
      AddBalanceExec(env, Everything, kv, a, amount, create)
        == if BalanceKey(a) !in kv && !create then Done(kv)
           else if sum < TWO_TO_64 then Done(kv[BalanceKey(a) := Balance(sum)])
           else Fail(kv, CouldNotAdd)
  {
  }

  /** Subtracting puts the difference on record, and leaves no record of nothing. */
  lemma SubOutcome(env: Env, kv: Store, a: Address, amount: uint64)
    ensures var rest := BalanceOf(kv, a) - amount;
      SubBalanceExec(env, Everything, kv, a, amount)
        == if rest < 0 then Fail(kv, CouldNotSubtract)
           else Done(if rest == 0 then kv - {BalanceKey(a)} else kv[BalanceKey(a) := Balance(rest)])
  {
  }

  /** `getBalance`: the balance, and whether the account has a record. */
  method GetBalance(mu: StateView, a: Address) returns (bal: uint64, found: bool, err: Option<Error>)
    ensures err == if mu.scope.MayRead(BalanceKey(a)) then None else Some(InvalidKeyOrValue)
    ensures err.None? ==> bal == BalanceOf(mu.kv, a) && found == (BalanceKey(a) in mu.kv)
  {
    var v, e := mu.GetValue(BalanceKey(a));
    if e.Some? {
      return 0, false, e;
    }
    if v.None? {
      return 0, false, None;
    }
    return v.value.amount, true, None;
  }

  method SetBalance(mu: StateView, a: Address, balance: uint64) returns (err: Option<Error>)
    modifies mu`kv
    ensures Outcome(mu.kv, err) == SetBalanceExec(mu.env, mu.scope, old(mu.kv), a, balance)
  {
    err := mu.Insert(BalanceKey(a), Balance(balance));
  }

  method AddBalance(mu: StateView, a: Address, amount: uint64, create: bool) returns (err: Option<Error>)
    modifies mu`kv
    ensures Outcome(mu.kv, err) == AddBalanceExec(mu.env, mu.scope, old(mu.kv), a, amount, create)
  {
    var bal, found, e := GetBalance(mu, a);
    if e.Some? {
      return e;
    }
    if !found && !create {
      return None;
    }
    var nbal := Add64(bal, amount);
    if nbal.None? {
      return Some(CouldNotAdd);
    }
    err := SetBalance(mu, a, nbal.value);
  }

  method SubBalance(mu: StateView, a: Address, amount: uint64) returns (err: Option<Error>)
    modifies mu`kv
    ensures Outcome(mu.kv, err) == SubBalanceExec(mu.env, mu.scope, old(mu.kv), a, amount)
  {
    var bal, _, e := GetBalance(mu, a);
    if e.Some? {
      return e;
    }
    var nbal := Sub64(bal, amount);
    if nbal.None? {
      return Some(CouldNotSubtract);
    }
    if nbal.value == 0 {
      err := mu.Remove(BalanceKey(a));
      return;
    }
    err := SetBalance(mu, a, nbal.value);
  }
}
