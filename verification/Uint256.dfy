/** types/commit.go and types/types.go: conversions between 32-byte commitments and big integers. */
module Uint256 {
  import opened Base
  import opened Words

  type Commitment = s: seq<byte> | |s| == 32 witness seq(32, _ => 0)

  /** `big.Int.Bytes`: the absolute value, without leading zeros. */
  function MinimalBytes(n: nat): (s: seq<byte>) {
    if n == 0 then [] else MinimalBytes(n / 256) + [n % 256]
  }

  function Abs(n: int): nat {
    if n < 0 then -n else n
  }

  lemma {:induction false} MinimalBytesValue(n: nat)
    ensures FromBigEndian(MinimalBytes(n)) == n
  {
    if n != 0 {
      MinimalBytesValue(n / 256);
      var s := MinimalBytes(n);
      assert s[..|s| - 1] == MinimalBytes(n / 256);
    }
  }

  /** The number fits in w bytes exactly when it is below 256^w. */
  lemma {:induction false} MinimalBytesLength(n: nat, w: nat)
    ensures |MinimalBytes(n)| <= w <==> n < Pow256(w)
    decreases w
  {
    if n != 0 && w > 0 {
      MinimalBytesLength(n / 256, w - 1);
    }
  }

  function Zeros(n: nat): seq<byte> {
    seq(n, _ => 0)
  }

  lemma {:induction false} LeadingZeros(k: nat, s: seq<byte>)
    ensures FromBigEndian(Zeros(k) + s) == FromBigEndian(s)
    decreases |s|, k
  {
    if s != [] {
      var t := Zeros(k) + s;
      assert t[..|t| - 1] == Zeros(k) + s[..|s| - 1];
      LeadingZeros(k, s[..|s| - 1]);
    } else if k > 0 {
      var t := Zeros(k) + s;
      assert t[..|t| - 1] == Zeros(k - 1) + [];
      LeadingZeros(k - 1, []);
    }
  }

  /** The commitment of an integer: 32 big-endian bytes, or None when the magnitude does not fit them. */
  function FromUint256(n: int): Option<Commitment> {
    if Abs(n) < Pow256(32) then Some(BigEndian(Abs(n), 32)) else None
  }

  /** `CommitmentFromUint256`: None stands for the out-of-range error. */
  method CommitmentFromUint256(n: int) returns (c: Option<Commitment>)
    ensures c == FromUint256(n)
  {
    var bytes: seq<byte> := MinimalBytes(Abs(n));
    MinimalBytesLength(Abs(n), 32);
    if |bytes| > 32 {
      return None;
    }
    if |bytes| < 32 {
      var zeros := Zeros(32 - |bytes|);
      LeadingZeros(32 - |bytes|, bytes);
      bytes := zeros + bytes;
    }
    MinimalBytesValue(Abs(n));
    EncodeDecode(bytes);
    return Some(bytes);
  }

  /** `Commitment.Uint256`, by way of `U256.SetBytes`. */
  function ToUint256(c: Commitment): (n: nat)
    ensures n < Pow256(32)
  {
    FromBigEndianBound(c);
    FromBigEndian(c)
  }

  /** Every commitment comes back from its integer, leading zeros included. */
  lemma CommitmentRoundTrip(c: Commitment)
    ensures FromUint256(ToUint256(c)) == Some(c)
  {
    EncodeDecode(c);
  }

  /** An integer comes back from its commitment exactly when it is a 256-bit unsigned integer: the sign is lost. */
  lemma IntegerRoundTrip(n: int)
    ensures (FromUint256(n).Some? && ToUint256(FromUint256(n).value) == n) <==> 0 <= n < Pow256(32)
  {
    if FromUint256(n).Some? {
      DecodeEncode(Abs(n), 32);
    }
  }
}
