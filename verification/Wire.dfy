/**
  Records in bytes: packed epochs and transfers, stored transactions and bids, and the readers that
  undo them. The packer writes big-endian integers, puts a four-byte length before byte strings, and
  stops at its size limit; a `required` read refuses zero.
 */
module Wire {
  import opened Base
  import opened Words
  import opened ChainState
  import opened Actions

  const TWO_TO_32: int := 0x1_0000_0000

  lemma Pow256Of4()
    ensures Pow256(4) == TWO_TO_32
  {
  }

  // ---------- the packer ----------

  class Packer {
    const limit: nat
    var bytes: seq<byte>
    var failed: bool

    constructor (limit: nat)
      ensures this.limit == limit && bytes == [] && !failed
    {
      this.limit, bytes, failed := limit, [], false;
    }

    /** Nothing is written once the limit has been hit. */
    method PackFixedBytes(b: seq<byte>)
      modifies this
      ensures failed == (old(failed) || |old(bytes)| + |b| > limit)
      ensures bytes == if failed then old(bytes) else old(bytes) + b
    {
      if !failed {
        if |bytes| + |b| > limit {
          failed := true;
        } else {
          bytes := bytes + b;
        }
      }
    }
  }

  /** A reader: the bytes left, or None after a failed read. */
  type Reader = Option<seq<byte>>

  /** Reads n bytes. */
  function Take(r: Reader, n: nat): (seq<byte>, Reader) {
    if r.None? || |r.value| < n then ([], None) else (r.value[..n], Some(r.value[n..]))
  }

  function TakeInt(r: Reader): (nat, Reader) {
    var (b, rest) := Take(r, 4);
    (FromBigEndian(b), rest)
  }

  /** `UnpackUint64`: when the value is required, zero is an error. */
  function TakeUint64(r: Reader, required: bool): (uint64, Reader) {
    var (b, rest) := Take(r, 8);
    FromBigEndianBound(b);
    Pow256Of8();
    (FromBigEndian(b), if required && FromBigEndian(b) == 0 then None else rest)
  }

  // ---------- storage/utils.go: epochs ----------

  function EpochBytes(epochs: seq<uint64>): (b: seq<byte>)
    ensures |b| == 8 * |epochs|
  {
    if epochs == [] then [] else EpochBytes(epochs[..|epochs| - 1]) + Word64(epochs[|epochs| - 1])
  }

  lemma EpochBytesNext(epochs: seq<uint64>, i: nat)
    requires i < |epochs|
    ensures EpochBytes(epochs[..i + 1]) == EpochBytes(epochs[..i]) + Word64(epochs[i])
  {
    assert epochs[..i + 1][..i] == epochs[..i];
  }

  /** `PackEpochs`: None stands for the packer's error. */
  method PackEpochs(epochs: seq<uint64>, limit: nat) returns (raw: Option<seq<byte>>)
    requires |epochs| < TWO_TO_32
    ensures raw == if 4 + 8 * |epochs| <= limit then Some(BigEndian(|epochs|, 4) + EpochBytes(epochs)) else None
  {
    var p := new Packer(limit);
    var count := BigEndian(|epochs|, 4);
    p.PackFixedBytes(count);
    for i := 0 to |epochs|
      invariant p.failed <==> 4 + 8 * i > limit
      invariant !p.failed ==> p.bytes == count + EpochBytes(epochs[..i])
    {
      EpochBytesNext(epochs, i);
      p.PackFixedBytes(Word64(epochs[i]));
    }
    assert epochs[..|epochs|] == epochs;
    return if p.failed then None else Some(p.bytes);
  }

  /** n epochs read one after the other; a zero or a missing one is an error. */
  function ReadEpochs(r: Reader, n: nat): (seq<uint64>, Reader)
    decreases n
  {
    if n == 0 then ([], r)
    else
      var (e, rest) := TakeUint64(r, true);
      var (es, last) := ReadEpochs(rest, n - 1);
      ([e] + es, last)
  }

  method UnpackEpochs(raw: seq<byte>) returns (epochs: Option<seq<uint64>>)
    ensures var (n, r) := TakeInt(Some(raw));
            var (es, last) := ReadEpochs(r, n);
            epochs == if last.Some? then Some(es) else None
  {
    var (eLen, r) := TakeInt(Some(raw));
    var es: seq<uint64> := [];
    ghost var start := r;
    for i := 0 to eLen
      invariant ReadEpochs(start, eLen).0 == es + ReadEpochs(r, eLen - i).0
      invariant ReadEpochs(start, eLen).1 == ReadEpochs(r, eLen - i).1
    {
      var (e, rest) := TakeUint64(r, true);
      es := es + [e];
      r := rest;
    }
    assert ReadEpochs(r, 0).0 == [] && es + [] == es;
    return if r.Some? then Some(es) else None;
  }

  lemma {:induction false} ReadFailsOn(n: nat)
    ensures ReadEpochs(None, n).1 == None
  {
    if n > 0 {
      ReadFailsOn(n - 1);
    }
  }

  /** Whatever comes after them, packed epochs are read back up to the first zero, and what comes after is left. */
  lemma {:induction false} ReadBack(epochs: seq<uint64>, i: nat, after: seq<byte>)
    requires i <= |epochs|
    ensures var tail := EpochBytes(epochs)[8 * i..] + after;
      (forall j :: i <= j < |epochs| ==> epochs[j] != 0) <==> ReadEpochs(Some(tail), |epochs| - i).1.Some?
    ensures var tail := EpochBytes(epochs)[8 * i..] + after;
      ReadEpochs(Some(tail), |epochs| - i).1.Some? ==> ReadEpochs(Some(tail), |epochs| - i) == (epochs[i..], Some(after))
    decreases |epochs| - i
  {
    var tail := EpochBytes(epochs)[8 * i..] + after;
    if i < |epochs| {
      EpochAt(epochs, i);
      assert tail[..8] == Word64(epochs[i]);
      assert tail[8..] == EpochBytes(epochs)[8 * (i + 1)..] + after;
      ReadBack(epochs, i + 1, after);
      if epochs[i] == 0 {
        ReadFailsOn(|epochs| - i - 1);
      }
      assert epochs[i..] == [epochs[i]] + epochs[i + 1..];
    } else {
      assert tail == after;
    }
  }

  lemma {:induction false} EpochAt(epochs: seq<uint64>, i: nat)
    requires i < |epochs|
    ensures EpochBytes(epochs)[8 * i..8 * i + 8] == Word64(epochs[i])
  {
    if i < |epochs| - 1 {
      var init := epochs[..|epochs| - 1];
      EpochAt(init, i);
      assert EpochBytes(epochs)[8 * i..8 * i + 8] == EpochBytes(init)[8 * i..8 * i + 8];
    }
  }

  lemma TailSlice(r: seq<byte>, k: nat)
    requires k + 16 <= |r|
    ensures r[8..][k..k + 8] == r[k + 8..k + 16]
  {
  }

  /** What reading n epochs consumed were n words that read as the epochs, none of them zero. */
  lemma {:induction false} EpochsRead(r: seq<byte>, n: nat)
    requires ReadEpochs(Some(r), n).1.Some?
    ensures var (es, last) := ReadEpochs(Some(r), n);
      && |es| == n && |r| == 8 * n + |last.value| && last.value == r[8 * n..]
      && forall i :: 0 <= i < n ==> es[i] != 0 && FromBigEndian(r[8 * i..8 * i + 8]) == es[i]
    decreases n
  {
    if n > 0 {
      var (e, rest) := TakeUint64(Some(r), true);
      if rest.None? {
        ReadFailsOn(n - 1);
      } else {
        var (es, last) := ReadEpochs(rest, n - 1);
        EpochsRead(rest.value, n - 1);
        forall i | 0 <= i < n
          ensures ([e] + es)[i] != 0 && FromBigEndian(r[8 * i..8 * i + 8]) == ([e] + es)[i]
        {
          if i > 0 {
            TailSlice(r, 8 * (i - 1));
          }
        }
        assert r[8..][8 * (n - 1)..] == r[8 * n..];
      }
    }
  }

  /** Packed epochs come back exactly when none of them is zero. */
  method EpochsRoundTrip(epochs: seq<uint64>, limit: nat) returns (back: Option<seq<uint64>>)
    requires |epochs| < TWO_TO_32 && 4 + 8 * |epochs| <= limit
    ensures back == if forall j :: 0 <= j < |epochs| ==> epochs[j] != 0 then Some(epochs) else None
  {
    var raw := PackEpochs(epochs, limit);
    back := UnpackEpochs(raw.value);
    Pow256Of4();
    DecodeEncode(|epochs|, 4);
    assert raw.value[..4] == BigEndian(|epochs|, 4) && raw.value[4..] == EpochBytes(epochs)[8 * 0..] + [];
    ReadBack(epochs, 0, []);
  }

  // ---------- actions/transfer.go: transfers ----------

  /** What `Marshal` packs. */
  function TransferBytes(to: Address, value: uint64, memo: seq<byte>): seq<byte> {
    to + Word64(value) + BigEndian(|memo|, 4) + memo
  }

  /** `Size`: an address, a word, and a byte string with its length. */
  function TransferSize(memo: seq<byte>): nat {
    33 + 8 + (4 + |memo|)
  }

  method MarshalTransfer(to: Address, value: uint64, memo: seq<byte>, p: Packer)
    requires p.bytes == [] && !p.failed
    modifies p
    ensures p.failed <==> TransferSize(memo) > p.limit
    ensures !p.failed ==> p.bytes == TransferBytes(to, value, memo)
  {
    var length := BigEndian(|memo|, 4);
    p.PackFixedBytes(to);
    assert !p.failed ==> p.bytes == to;
    p.PackFixedBytes(Word64(value));
    p.PackFixedBytes(length);
    p.PackFixedBytes(memo);
  }

  /** `UnmarshalTransfer`: the value is required, and the memo's length is limited. */
  function UnmarshalTransfer(raw: seq<byte>): Option<Action> {
    var (to, r1) := Take(Some(raw), 33);
    var (value, r2) := TakeUint64(r1, true);
    var (length, r3) := TakeInt(r2);
    var (memo, r4) := Take(if length > MAX_MEMO_SIZE then None else r3, length);
    if r4.None? then None else Some(Transfer(to, value, memo))
  }

  /** The bytes one after the other: 33 of address, 8 of value, 4 of the memo's length, the memo. */
  lemma TransferLayout(to: Address, value: uint64, memo: seq<byte>)
    requires |memo| < TWO_TO_32
    ensures var raw := TransferBytes(to, value, memo);
      && |raw| == 45 + |memo|
      && raw[..33] == to && FromBigEndian(raw[33..41]) == value
      && FromBigEndian(raw[41..45]) == |memo| && raw[45..] == memo
  {
    var raw := TransferBytes(to, value, memo);
    Pow256Of4();
    DecodeEncode(|memo|, 4);
    assert raw[..33] == to && raw[33..41] == Word64(value) && raw[41..45] == BigEndian(|memo|, 4) && raw[45..] == memo;
  }

  /** Whatever the bytes, the transfer that is read from them is the one they begin with. */
  lemma TransferRead(raw: seq<byte>)
    requires UnmarshalTransfer(raw).Some?
    ensures var a := UnmarshalTransfer(raw).value;
      && a.Transfer? && a.value != 0 && |a.memo| <= 256
      && TransferBytes(a.to, a.value, a.memo) <= raw
  {
    var a := UnmarshalTransfer(raw).value;
    var bytes := TransferBytes(a.to, a.value, a.memo);
    EncodeDecode(raw[33..][..8]);
    EncodeDecode(raw[33..][8..][..4]);
    assert raw[33..][8..][4..][..|a.memo|] == a.memo;
    assert bytes == raw[..|bytes|];
  }

  /** A transfer comes back exactly when its value is not zero and its memo is within the limit. */
  lemma TransferRoundTrip(to: Address, value: uint64, memo: seq<byte>, rest: seq<byte>)
    requires |memo| < TWO_TO_32
    ensures |TransferBytes(to, value, memo)| == TransferSize(memo)
    ensures UnmarshalTransfer(TransferBytes(to, value, memo) + rest)
         == if value != 0 && |memo| <= 256 then Some(Transfer(to, value, memo)) else None
  {
    var raw := TransferBytes(to, value, memo) + rest;
    assert raw[..33] == to;
    assert raw[33..][..8] == Word64(value);
    assert raw[33..][8..][..4] == BigEndian(|memo|, 4);
    assert raw[33..][8..][4..] == memo + rest;
    Pow256Of4();
    DecodeEncode(|memo|, 4);
    assert (memo + rest)[..|memo|] == memo;
  }

  // ---------- storage/transaction.go: the record of a transaction ----------

  const TWO_TO_63: int := 0x8000_0000_0000_0000
  type int64 = n: int | -TWO_TO_63 <= n < TWO_TO_63

  /** Go's conversions between int64 and uint64. */
  function ToUnsigned(t: int64): (n: uint64)
    ensures n == t || n - TWO_TO_64 == t
  {
    if t < 0 then t + TWO_TO_64 else t
  }

  function ToSigned(n: uint64): int64 {
    if n < TWO_TO_63 then n else n - TWO_TO_64
  }

  datatype TxRecord = TxRecord(time: int64, success: bool, units: seq<byte>, fee: uint64)

  const DIMENSIONS_LEN := 40 // five words

  /** `StoreTransaction`: the record is filled in place, field by field. */
  method StoreTransaction(r: TxRecord) returns (v: array<byte>)
    requires |r.units| == DIMENSIONS_LEN
    ensures fresh(v)
    ensures v[..] == Word64(ToUnsigned(r.time)) + [if r.success then 1 else 0] + r.units + Word64(r.fee)
  {
    v := new byte[8 + 1 + DIMENSIONS_LEN + 8](_ => 0);
    CopyInto(v, 0, Word64(ToUnsigned(r.time)));
    v[8] := if r.success then 1 else 0;
    CopyInto(v, 9, r.units);
    CopyInto(v, 9 + DIMENSIONS_LEN, Word64(r.fee));
    assert v[..] == v[..8] + v[8..9] + v[9..49] + v[49..];
  }

  /** The bytes with b over them from a position on, as far as it goes. */
  function Overwritten(v: seq<byte>, at: nat, b: seq<byte>): (w: seq<byte>)
    requires at <= |v|
    ensures |w| == |v|
    ensures forall i :: 0 <= i < |w| ==> w[i] == if at <= i < at + |b| then b[i - at] else v[i]
  {
    var n := if |b| <= |v| - at then |b| else |v| - at;
    v[..at] + b[..n] + v[at + n..]
  }

  /** Go's `copy` into a buffer from a position on. */
  method CopyInto(v: array<byte>, at: nat, b: seq<byte>)
    requires at <= v.Length
    modifies v
    ensures v[..] == Overwritten(old(v[..]), at, b)
  {
    var n := if |b| <= v.Length - at then |b| else v.Length - at;
    forall i | 0 <= i < n {
      v[at + i] := b[i];
    }
  }

  /** `GetTransaction` on a stored record: any success byte but 0 means success. */
  function ReadTransaction(v: seq<byte>): TxRecord
    requires |v| == 8 + 1 + DIMENSIONS_LEN + 8
  {
    FromBigEndianBound(v[..8]);
    FromBigEndianBound(v[49..]);
    Pow256Of8();
    TxRecord(ToSigned(FromBigEndian(v[..8])), v[8] != 0, v[9..49], FromBigEndian(v[49..]))
  }

  /** Reading any record and storing it again gives back its bytes, but for a success byte that was neither 0 nor 1. */
  method StoredAgain(v: seq<byte>) returns (w: array<byte>)
    requires |v| == 8 + 1 + DIMENSIONS_LEN + 8
    ensures w[..] == v[8 := if v[8] == 0 then 0 else 1]
  {
    var r := ReadTransaction(v);
    EncodeDecode(v[..8]);
    EncodeDecode(v[49..]);
    FromBigEndianBound(v[..8]);
    FromBigEndianBound(v[49..]);
    Pow256Of8();
    w := StoreTransaction(r);
    assert Word64(ToUnsigned(r.time)) == v[..8] && Word64(r.fee) == v[49..];
  }

  /** What is read is what was stored, negative times included. */
  method TransactionRoundTrip(r: TxRecord) returns (back: TxRecord)
    requires |r.units| == DIMENSIONS_LEN
    ensures back == r
  {
    var v := StoreTransaction(r);
    assert v[..][..8] == Word64(ToUnsigned(r.time));
    assert v[..][9..49] == r.units;
    assert v[..][49..] == Word64(r.fee);
    back := ReadTransaction(v[..]);
  }

  // ---------- storage/arcadia.go: the record of a bid ----------

  /** `StoreArcadiaBidInfo`: price, 48 bytes of public key, 96 bytes of signature. */
  method StoreBid(b: Bid) returns (v: array<byte>)
    ensures fresh(v) && v.Length == 8 + 48 + 96
    ensures v[..8] == Word64(b.price)
    ensures |b.publicKey| == 48 ==> v[8..56] == b.publicKey
    ensures |b.signature| == 96 ==> v[56..] == b.signature
    ensures forall i :: 8 <= i < 56 ==> v[i] == if i - 8 < |b.publicKey| then b.publicKey[i - 8] else 0
    ensures forall i :: 56 <= i < 152 ==>
      v[i] == if i - 56 < |b.signature| then b.signature[i - 56] else if i - 8 < |b.publicKey| then b.publicKey[i - 8] else 0
  {
    v := new byte[8 + 48 + 96](_ => 0);
    CopyInto(v, 0, Word64(b.price));
    ghost var priced := v[..];
    CopyInto(v, 8, b.publicKey);
    ghost var keyed := v[..];
    CopyInto(v, 56, b.signature);
    BidRecordBytes(priced, b, keyed, v[..]);
  }

  lemma BidRecordBytes(priced: seq<byte>, b: Bid, keyed: seq<byte>, w: seq<byte>)
    requires |priced| == 152 && priced[..8] == Word64(b.price) && forall i :: 8 <= i < 152 ==> priced[i] == 0
    requires keyed == Overwritten(priced, 8, b.publicKey) && w == Overwritten(keyed, 56, b.signature)
    ensures w[..8] == Word64(b.price)
    ensures |b.publicKey| == 48 ==> w[8..56] == b.publicKey
    ensures |b.signature| == 96 ==> w[56..] == b.signature
    ensures forall i :: 8 <= i < 56 ==> w[i] == if i - 8 < |b.publicKey| then b.publicKey[i - 8] else 0
    ensures forall i :: 56 <= i < 152 ==>
      w[i] == if i - 56 < |b.signature| then b.signature[i - 56] else if i - 8 < |b.publicKey| then b.publicKey[i - 8] else 0
  {
  }

  /** The readers of a bid record. */
  function ReadBid(v: seq<byte>): Bid
    requires |v| == 8 + 48 + 96
  {
    FromBigEndianBound(v[..8]);
    Pow256Of8();
    Bid(FromBigEndian(v[..8]), v[8..56], v[56..])
  }

  /** A bid comes back exactly when its key has 48 bytes and its signature 96. */
  method BidRoundTrip(b: Bid) returns (back: Bid)
    ensures back == b <==> |b.publicKey| == 48 && |b.signature| == 96
    ensures back.price == b.price
  {
    var v := StoreBid(b);
    assert v[..][..8] == v[..8] && v[..][8..56] == v[8..56] && v[..][56..] == v[56..];
    back := ReadBid(v[..]);
  }
}
