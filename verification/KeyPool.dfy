/**
  storage/balance.go on the level of bytes: balance keys are built in recycled buffers, and a buffer
  given to the state as a key is never recycled.
 */
module KeyPool {
  import opened Base
  import opened Words
  import opened ChainState
  import opened Balances

  const KEY_LENGTH := 36
  const BALANCE_PREFIX: byte := 0
  const BALANCE_CHUNKS: uint64 := 1

  /** The key of an account: prefix, address, and the number of chunks as two big-endian bytes. */
  function KeyBytes(a: Address): (k: seq<byte>)
    ensures |k| == KEY_LENGTH
  {
    [BALANCE_PREFIX] + a + BigEndian(BALANCE_CHUNKS, 2)
  }

  lemma KeyLayout(a: Address)
    ensures KeyBytes(a) == [0] + a + [0, 1]
  {
    assert BigEndian(BALANCE_CHUNKS, 2) == [0, 1] by {
      EncodeDecode([0, 1]);
    }
  }

  lemma KeyBytesInjective(a: Address, b: Address)
    requires KeyBytes(a) == KeyBytes(b)
    ensures a == b
  {
    assert a == KeyBytes(a)[1..34] && b == KeyBytes(b)[1..34];
  }

  /** `sync.Pool`: may hand out any buffer that was put back, or a new one. */
  class Pool {
    var free: set<array<byte>>

    ghost predicate Valid()
      reads this
    {
      forall k :: k in free ==> k.Length == KEY_LENGTH
    }

    constructor ()
      ensures Valid() && free == {}
    {
      free := {};
    }

    method Get() returns (k: array<byte>)
      requires Valid()
      modifies this
      ensures Valid() && k.Length == KEY_LENGTH && k !in free
      ensures free == old(free) - {k} && (k in old(free) || fresh(k))
    {
      if free != {} {
        k :| k in free;
        free := free - {k};
      } else {
        k := new byte[KEY_LENGTH](_ => 0);
      }
    }

    method Put(k: array<byte>)
      requires Valid() && k.Length == KEY_LENGTH
      modifies this
      ensures Valid() && free == old(free) + {k}
    {
      free := free + {k};
    }

    /** `BalanceKey`: overwrites every byte of the buffer, so what it held before does not matter. */
    method BalanceKey(a: Address) returns (k: array<byte>)
      requires Valid()
      modifies this, free
      ensures Valid() && k.Length == KEY_LENGTH && k !in free
      ensures free == old(free) - {k} && (k in old(free) || fresh(k))
      ensures k[..] == KeyBytes(a)
      ensures k[0] == 0 && k[1..34] == a && k[34] == 0 && k[35] == 1
      ensures forall b :: b in free ==> b[..] == old(b[..])
    {
      k := Get();
      k[0] := BALANCE_PREFIX;
      forall i | 0 <= i < |a| {
        k[1 + i] := a[i];
      }
      var chunks := BigEndian(BALANCE_CHUNKS, 2);
      k[34], k[35] := chunks[0], chunks[1];
      KeyLayout(a);
    }
  }

  /**
    The state as the storage code sees it. It may keep every key buffer passed to Insert or Remove;
    `retained` records those buffers with what they held.
   */
  class ByteState {
    var entries: map<seq<byte>, seq<byte>>
    ghost var retained: map<array<byte>, seq<byte>>

    ghost predicate WellFormed()
      reads this
    {
      forall k :: k in entries ==> |entries[k]| == 8
    }

    constructor ()
      ensures WellFormed() && entries == map[] && retained == map[]
    {
      entries, retained := map[], map[];
    }

    method GetValue(k: array<byte>) returns (v: Option<seq<byte>>)
      ensures v == if k[..] in entries then Some(entries[k[..]]) else None
    {
      if k[..] in entries {
        return Some(entries[k[..]]);
      }
      return None;
    }

    method Insert(k: array<byte>, v: seq<byte>)
      requires WellFormed() && |v| == 8
      modifies this
      ensures WellFormed() && entries == old(entries)[k[..] := v]
      ensures retained == old(retained)[k := k[..]]
    {
      entries := entries[k[..] := v];
      retained := retained[k := k[..]];
    }

    method Remove(k: array<byte>)
      requires WellFormed()
      modifies this
      ensures WellFormed() && entries == old(entries) - {k[..]}
      ensures retained == old(retained)[k := k[..]]
    {
      entries := entries - {k[..]};
      retained := retained[k := k[..]];
    }
  }

  /** No retained key is in the pool, and each still holds what it held when it was passed on. */
  ghost predicate KeysIntact(pool: Pool, db: ByteState)
    reads pool, db, db.retained.Keys
  {
    && pool.Valid() && db.WellFormed()
    && pool.free !! db.retained.Keys
    && forall k :: k in db.retained ==> k[..] == db.retained[k]
  }

  function StoredBalance(entries: map<seq<byte>, seq<byte>>, a: Address): uint64
    requires forall k :: k in entries ==> |entries[k]| == 8
  {
    if KeyBytes(a) in entries then Decoded(entries[KeyBytes(a)]) else 0
  }

  function Decoded(v: seq<byte>): uint64
    requires |v| == 8
  {
    FromBigEndianBound(v);
    Pow256Of8();
    FromBigEndian(v)
  }

  /** `getBalance`: the caller gets the key buffer back and decides what becomes of it. */
  method GetBalanceKey(pool: Pool, db: ByteState, a: Address) returns (k: array<byte>, bal: uint64, found: bool)
    requires KeysIntact(pool, db)
    modifies pool, pool.free
    ensures KeysIntact(pool, db) && k !in pool.free && k !in db.retained && k[..] == KeyBytes(a)
    ensures pool.free == old(pool.free) - {k} && (k in old(pool.free) || fresh(k))
    ensures bal == StoredBalance(db.entries, a) && found == (KeyBytes(a) in db.entries)
  {
    k := pool.BalanceKey(a);
    var v := db.GetValue(k);
    if v.None? {
      return k, 0, false;
    }
    return k, Decoded(v.value), true;
  }

  /** `GetBalance`: reading is the one use after which the buffer goes back to the pool. */
  method GetBalance(pool: Pool, db: ByteState, a: Address) returns (bal: uint64)
    requires KeysIntact(pool, db)
    modifies pool, pool.free
    ensures KeysIntact(pool, db) && bal == StoredBalance(db.entries, a)
    ensures old(pool.free) <= pool.free && exists k :: k in pool.free && k[..] == KeyBytes(a)
  {
    var k, b, _ := GetBalanceKey(pool, db, a);
    pool.Put(k);
    return b;
  }

  method SetBalance(pool: Pool, db: ByteState, a: Address, balance: uint64)
    requires KeysIntact(pool, db)
    modifies pool, pool.free, db
    ensures KeysIntact(pool, db) && old(db.retained.Keys) <= db.retained.Keys
    ensures db.entries == old(db.entries)[KeyBytes(a) := Word64(balance)]
  {
    var k := pool.BalanceKey(a);
    db.Insert(k, Word64(balance));
  }

  method AddBalance(pool: Pool, db: ByteState, a: Address, amount: uint64, create: bool) returns (err: Option<Error>)
    requires KeysIntact(pool, db)
    modifies pool, pool.free, db
    ensures KeysIntact(pool, db) && old(db.retained.Keys) <= db.retained.Keys
    ensures (db.entries, err) == AddedBytes(old(db.entries), a, amount, create)
  {
    var k, bal, found := GetBalanceKey(pool, db, a);
    if !found && !create {
      return None;
    }
    var nbal := Add64(bal, amount);
    if nbal.None? {
      return Some(CouldNotAdd);
    }
    db.Insert(k, Word64(nbal.value));
    return None;
  }

  method SubBalance(pool: Pool, db: ByteState, a: Address, amount: uint64) returns (err: Option<Error>)
    requires KeysIntact(pool, db)
    modifies pool, pool.free, db
    ensures KeysIntact(pool, db) && old(db.retained.Keys) <= db.retained.Keys
    ensures (db.entries, err) == SubtractedBytes(old(db.entries), a, amount)
  {
    var k, bal, _ := GetBalanceKey(pool, db, a);
    var nbal := Sub64(bal, amount);
    if nbal.None? {
      return Some(CouldNotSubtract);
    }
    if nbal.value == 0 {
      db.Remove(k);
      return None;
    }
    db.Insert(k, Word64(nbal.value));
    return None;
  }

  // ---------- the byte entries represent the typed balances ----------

  type Entries = m: map<seq<byte>, seq<byte>> | forall k :: k in m ==> |m[k]| == 8 witness map[]

  function AddedBytes(entries: Entries, a: Address, amount: uint64, create: bool): (Entries, Option<Error>) {
    var k, bal := KeyBytes(a), StoredBalance(entries, a);
    if k !in entries && !create then (entries, None)
    else if bal + amount >= TWO_TO_64 then (entries, Some(CouldNotAdd))
    else (entries[k := Word64(bal + amount)], None)
  }

  function SubtractedBytes(entries: Entries, a: Address, amount: uint64): (Entries, Option<Error>) {
    var k, bal := KeyBytes(a), StoredBalance(entries, a);
    if bal < amount then (entries, Some(CouldNotSubtract))
    else if bal == amount then (entries - {k}, None)
    else (entries[k := Word64(bal - amount)], None)
  }

  /** Every balance record is stored under its key bytes as a big-endian word. */
  ghost predicate Represents(entries: Entries, kv: Store) {
    forall a: Address ::
      && (KeyBytes(a) in entries <==> BalanceKey(a) in kv)
      && (BalanceKey(a) in kv ==> entries[KeyBytes(a)] == Word64(kv[BalanceKey(a)].amount))
  }

  lemma SameBalance(entries: Entries, kv: Store, a: Address)
    requires Represents(entries, kv)
    ensures StoredBalance(entries, a) == BalanceOf(kv, a)
    ensures KeyBytes(a) in entries <==> BalanceKey(a) in kv
  {
    assert KeyBytes(a) in entries <==> BalanceKey(a) in kv;
  }

  lemma OtherKeys(entries: Entries, kv: Store, a: Address, b: Address)
    requires Represents(entries, kv) && b != a
    ensures KeyBytes(b) != KeyBytes(a)
    ensures KeyBytes(b) in entries <==> BalanceKey(b) in kv
    ensures BalanceKey(b) in kv ==> entries[KeyBytes(b)] == Word64(kv[BalanceKey(b)].amount)
  {
    if KeyBytes(b) == KeyBytes(a) {
      KeyBytesInjective(a, b);
    }
    assert KeyBytes(b) in entries <==> BalanceKey(b) in kv;
  }

  lemma InsertRepresents(entries: Entries, kv: Store, a: Address, amount: uint64)
    requires Represents(entries, kv)
    ensures Represents(entries[KeyBytes(a) := Word64(amount)], kv[BalanceKey(a) := Balance(amount)])
  {
    forall b: Address | b != a {
      OtherKeys(entries, kv, a, b);
    }
  }

  lemma RemoveRepresents(entries: Entries, kv: Store, a: Address)
    requires Represents(entries, kv)
    ensures Represents(entries - {KeyBytes(a)}, kv - {BalanceKey(a)})
  {
    forall b: Address | b != a {
      OtherKeys(entries, kv, a, b);
    }
  }

  /** Adding to the bytes is adding to the typed balance, with the same error. */
  lemma AddRefines(env: Env, entries: Entries, kv: Store, a: Address, amount: uint64, create: bool)
    requires Represents(entries, kv)
    ensures var (e, err) := AddedBytes(entries, a, amount, create);
            var r := AddBalanceExec(env, Everything, kv, a, amount, create);
            r == Outcome(r.kv, err) && Represents(e, r.kv)
  {
    SameBalance(entries, kv, a);
    AddOutcome(env, kv, a, amount, create);
    if BalanceOf(kv, a) + amount < TWO_TO_64 {
      InsertRepresents(entries, kv, a, BalanceOf(kv, a) + amount);
    }
  }

  /** Subtracting from the bytes is subtracting from the typed balance, with the same error. */
  lemma SubRefines(env: Env, entries: Entries, kv: Store, a: Address, amount: uint64)
    requires Represents(entries, kv)
    ensures var (e, err) := SubtractedBytes(entries, a, amount);
            var r := SubBalanceExec(env, Everything, kv, a, amount);
            r == Outcome(r.kv, err) && Represents(e, r.kv)
  {
    SameBalance(entries, kv, a);
    SubOutcome(env, kv, a, amount);
    if amount < BalanceOf(kv, a) {
      InsertRepresents(entries, kv, a, BalanceOf(kv, a) - amount);
    } else if amount == BalanceOf(kv, a) {
      RemoveRepresents(entries, kv, a);
    }
  }
}
