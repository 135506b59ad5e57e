/**
  types/commit.go: commitments hash a transcript of named fields. Transcripts can be decoded
  uniquely, because the separator after a name cannot occur in UTF-8 (section 4 of RFC 3629).
 */
module Transcripts {
  import opened Base
  import opened Words
  import opened Uint256

  // ---------- UTF-8 ----------

  predicate Tail(b: byte) {
    0x80 <= b <= 0xBF
  }

  /** The length of the UTF-8 character that s begins with, or 0 (section 4 of RFC 3629). */
  function CharLength(s: seq<byte>): nat {
    if |s| >= 1 && s[0] <= 0x7F then 1
    else if |s| >= 2 && 0xC2 <= s[0] <= 0xDF && Tail(s[1]) then 2
    else if |s| >= 3 && Tail(s[2])
         && ((s[0] == 0xE0 && 0xA0 <= s[1] <= 0xBF) || (0xE1 <= s[0] <= 0xEC && Tail(s[1]))
             || (s[0] == 0xED && 0x80 <= s[1] <= 0x9F) || (0xEE <= s[0] <= 0xEF && Tail(s[1]))) then 3
    else if |s| >= 4 && Tail(s[2]) && Tail(s[3])
         && ((s[0] == 0xF0 && 0x90 <= s[1] <= 0xBF) || (0xF1 <= s[0] <= 0xF3 && Tail(s[1]))
             || (s[0] == 0xF4 && 0x80 <= s[1] <= 0x8F)) then 4
    else 0
  }

  /** `utf8.Valid`. */
  predicate ValidUtf8(s: seq<byte>)
    decreases |s|
  {
    s == [] || (CharLength(s) > 0 && ValidUtf8(s[CharLength(s)..]))
  }

  /** A Unicode scalar value: a code point that is not a surrogate. */
  type Scalar = c: int | 0 <= c <= 0x10FFFF && !(0xD800 <= c <= 0xDFFF)

  /** The UTF-8 encoding of a scalar value (section 3 of RFC 3629). */
  function EncodeScalar(c: Scalar): seq<byte> {
    if c <= 0x7F then [c]
    else if c <= 0x7FF then [0xC0 + c / 0x40, 0x80 + c % 0x40]
    else if c <= 0xFFFF then [0xE0 + c / 0x1000, 0x80 + c / 0x40 % 0x40, 0x80 + c % 0x40]
    else [0xF0 + c / 0x40000, 0x80 + c / 0x1000 % 0x40, 0x80 + c / 0x40 % 0x40, 0x80 + c % 0x40]
  }

  function Encode(cs: seq<Scalar>): seq<byte> {
    if cs == [] then [] else EncodeScalar(cs[0]) + Encode(cs[1..])
  }

  lemma EncodedLength(c: Scalar, rest: seq<byte>)
    ensures CharLength(EncodeScalar(c) + rest) == |EncodeScalar(c)|
  {
  }

  /** A number with its lowest base-64 digit split off. */
  lemma Digit(high: nat, low: nat)
    requires low < 0x40
    ensures (high * 0x40 + low) / 0x40 == high && (high * 0x40 + low) % 0x40 == low
  {
  }

  lemma DecodeTwo(b0: int, b1: int) returns (c: Scalar)
    requires 0xC2 <= b0 <= 0xDF && 0x80 <= b1 <= 0xBF
    ensures EncodeScalar(c) == [b0, b1]
  {
    Digit(b0 - 0xC0, b1 - 0x80);
    c := (b0 - 0xC0) * 0x40 + (b1 - 0x80);
  }

  lemma DecodeThree(b0: int, b1: int, b2: int) returns (c: Scalar)
    requires 0xE0 <= b0 <= 0xEF && 0x80 <= b1 <= 0xBF && 0x80 <= b2 <= 0xBF
    requires (b0 == 0xE0 ==> 0xA0 <= b1) && (b0 == 0xED ==> b1 <= 0x9F)
    ensures EncodeScalar(c) == [b0, b1, b2]
  {
    var high := (b0 - 0xE0) * 0x40 + (b1 - 0x80);
    Digit(b0 - 0xE0, b1 - 0x80);
    Digit(high, b2 - 0x80);
    c := high * 0x40 + (b2 - 0x80);
    assert c / 0x1000 == c / 0x40 / 0x40;
  }

  lemma DecodeFour(b0: int, b1: int, b2: int, b3: int) returns (c: Scalar)
    requires 0xF0 <= b0 <= 0xF4 && 0x80 <= b1 <= 0xBF && 0x80 <= b2 <= 0xBF && 0x80 <= b3 <= 0xBF
    requires (b0 == 0xF0 ==> 0x90 <= b1) && (b0 == 0xF4 ==> b1 <= 0x8F)
    ensures EncodeScalar(c) == [b0, b1, b2, b3]
  {
    var top := (b0 - 0xF0) * 0x40 + (b1 - 0x80);
    var high := top * 0x40 + (b2 - 0x80);
    Digit(b0 - 0xF0, b1 - 0x80);
    Digit(top, b2 - 0x80);
    Digit(high, b3 - 0x80);
    c := high * 0x40 + (b3 - 0x80);
    assert c / 0x1000 == c / 0x40 / 0x40 && c / 0x40000 == c / 0x40 / 0x40 / 0x40;
  }

  /** Every character is the encoding of a scalar value. */
  lemma DecodeChar(s: seq<byte>) returns (c: Scalar)
    requires CharLength(s) > 0
    ensures EncodeScalar(c) == s[..CharLength(s)]
  {
    var n := CharLength(s);
    if n == 1 {
      c := s[0];
    } else if n == 2 {
      c := DecodeTwo(s[0], s[1]);
    } else if n == 3 {
      c := DecodeThree(s[0], s[1], s[2]);
    } else {
      c := DecodeFour(s[0], s[1], s[2], s[3]);
    }
  }

  /** A string is valid exactly when it encodes some scalar values. */
  lemma {:induction false} EncodedIsValid(cs: seq<Scalar>)
    ensures ValidUtf8(Encode(cs))
  {
    if cs != [] {
      EncodedLength(cs[0], Encode(cs[1..]));
      EncodedIsValid(cs[1..]);
      assert Encode(cs)[|EncodeScalar(cs[0])|..] == Encode(cs[1..]);
    }
  }

  lemma {:induction false} ValidIsEncoded(s: seq<byte>) returns (cs: seq<Scalar>)
    requires ValidUtf8(s)
    ensures Encode(cs) == s
    decreases |s|
  {
    if s == [] {
      cs := [];
    } else {
      var c := DecodeChar(s);
      var rest := ValidIsEncoded(s[CharLength(s)..]);
      cs := [c] + rest;
      assert cs[1..] == rest && s == s[..CharLength(s)] + s[CharLength(s)..];
    }
  }

  /** The first separator byte occurs in no valid UTF-8 string. */
  lemma {:induction false} NoSeparatorInUtf8(s: seq<byte>)
    requires ValidUtf8(s)
    ensures 0xC0 !in s
    decreases |s|
  {
    if s != [] {
      var n := CharLength(s);
      NoSeparatorInUtf8(s[n..]);
      assert s == s[..n] + s[n..];
      assert forall i :: 0 <= i < n ==> s[i] != 0xC0;
    }
  }

  lemma {:induction false} AsciiIsUtf8(s: seq<byte>)
    requires forall i :: 0 <= i < |s| ==> s[i] <= 0x7F
    ensures ValidUtf8(s)
    decreases |s|
  {
    if s != [] {
      AsciiIsUtf8(s[1..]);
    }
  }

  // ---------- fields ----------

  const SEPARATOR: seq<byte> := [0xC0, 0x7F]

  /** A named field, as the builder's methods append them. */
  datatype Field =
    | CommitmentField(name: seq<byte>, commitment: Commitment)
    | OptionalField(name: seq<byte>, optional: Option<Commitment>)
    | Uint256Field(name: seq<byte>, big: nat)
    | Uint64Field(name: seq<byte>, word: uint64)
    | FixedSizeField(name: seq<byte>, bytes: seq<byte>)
    | VarSizeField(name: seq<byte>, bytes: seq<byte>)

  /** What the type of a field fixes: its kind, and for a fixed-size one its width. */
  datatype Kind = KCommitment | KOptional | KUint256 | KUint64 | KFixed(width: nat) | KVar

  function KindOf(f: Field): Kind {
    match f
    case CommitmentField(_, _) => KCommitment
    case OptionalField(_, _) => KOptional
    case Uint256Field(_, _) => KUint256
    case Uint64Field(_, _) => KUint64
    case FixedSizeField(_, bytes) => KFixed(|bytes|)
    case VarSizeField(_, _) => KVar
  }

  /** The builder's own demands: a UTF-8 name, an integer that fits 32 bytes, a length that fits 64 bits. */
  predicate WellFormed(f: Field) {
    && ValidUtf8(f.name)
    && (f.Uint256Field? ==> f.big < Pow256(32))
    && (f.VarSizeField? ==> |f.bytes| < TWO_TO_64)
  }

  function Payload(f: Field): seq<byte>
    requires WellFormed(f)
  {
    match f
    case CommitmentField(_, c) => c
    case OptionalField(_, c) => OptionalBytes(c)
    case Uint256Field(_, n) => BigEndian(n, 32)
    case Uint64Field(_, n) => Word64(n)
    case FixedSizeField(_, bytes) => bytes
    case VarSizeField(_, bytes) => Word64(|bytes|) + bytes
  }

  function FieldBytes(f: Field): seq<byte>
    requires WellFormed(f)
  {
    f.name + SEPARATOR + Payload(f)
  }

  function Transcript(fs: seq<Field>): seq<byte>
    requires forall f :: f in fs ==> WellFormed(f)
  {
    if fs == [] then [] else FieldBytes(fs[0]) + Transcript(fs[1..])
  }

  /** Fields of the same name have the same kind: the rule the builder's comments impose on its callers. */
  ghost predicate SameSchema(fs: seq<Field>, gs: seq<Field>) {
    forall f, g :: f in fs && g in gs && f.name == g.name ==> KindOf(f) == KindOf(g)
  }

  // ---------- unique decodability ----------

  /** A name followed by the separator can be told from what comes after. */
  lemma NameEnds(n: seq<byte>, x: seq<byte>, m: seq<byte>, y: seq<byte>)
    requires 0xC0 !in n && 0xC0 !in m
    requires n + SEPARATOR + x == m + SEPARATOR + y
    ensures n == m && x == y
  {
    var s, t := n + SEPARATOR + x, m + SEPARATOR + y;
    assert s[|n|] == 0xC0 && t[|m|] == 0xC0;
    assert forall i :: 0 <= i < |n| ==> s[i] == n[i];
    assert forall i :: 0 <= i < |m| ==> t[i] == m[i];
    assert n == s[..|n|] && m == t[..|m|];
    assert x == s[|n| + 2..] && y == t[|m| + 2..];
  }

  lemma SplitAt(a: seq<byte>, x: seq<byte>, b: seq<byte>, y: seq<byte>)
    requires a + x == b + y && |a| == |b|
    ensures a == b && x == y
  {
    assert a == (a + x)[..|a|] && b == (b + y)[..|b|];
    assert x == (a + x)[|a|..] && y == (b + y)[|b|..];
  }

  lemma Word64Splits(m: uint64, x: seq<byte>, n: uint64, y: seq<byte>)
    requires Word64(m) + x == Word64(n) + y
    ensures m == n && x == y
  {
    SplitAt(Word64(m), x, Word64(n), y);
  }

  function OptionalBytes(c: Option<Commitment>): seq<byte> {
    if c.None? then Word64(0) else Word64(1) + c.value
  }

  /** The words that announce an absent and a present option. */
  lemma SmallWords()
    ensures Word64(0) == [0, 0, 0, 0, 0, 0, 0, 0]
    ensures Word64(1) == [0, 0, 0, 0, 0, 0, 0, 1]
  {
  }

  lemma OptionalSplits(c: Option<Commitment>, x: seq<byte>, d: Option<Commitment>, y: seq<byte>)
    requires OptionalBytes(c) + x == OptionalBytes(d) + y
    ensures c == d && x == y
  {
    OptionalShape(c, x);
    OptionalShape(d, y);
    Word64Splits(PresenceTag(c), AfterTag(c, x), PresenceTag(d), AfterTag(d, y));
    if c.Some? {
      SplitAt(c.value, x, d.value, y);
    }
  }

  function PresenceTag(c: Option<Commitment>): uint64 {
    if c.None? then 0 else 1
  }

  function AfterTag(c: Option<Commitment>, x: seq<byte>): seq<byte> {
    if c.None? then x else c.value + x
  }

  lemma OptionalShape(c: Option<Commitment>, x: seq<byte>)
    ensures OptionalBytes(c) + x == Word64(PresenceTag(c)) + AfterTag(c, x)
  {
  }

  lemma VarSizeSplits(a: seq<byte>, x: seq<byte>, b: seq<byte>, y: seq<byte>)
    requires |a| < TWO_TO_64 && |b| < TWO_TO_64
    requires Word64(|a|) + a + x == Word64(|b|) + b + y
    ensures a == b && x == y
  {
    assert Word64(|a|) + a + x == Word64(|a|) + (a + x);
    assert Word64(|b|) + b + y == Word64(|b|) + (b + y);
    Word64Splits(|a|, a + x, |b|, b + y);
    SplitAt(a, x, b, y);
  }

  lemma Uint256Splits(m: nat, x: seq<byte>, n: nat, y: seq<byte>)
    requires m < Pow256(32) && n < Pow256(32)
    requires BigEndian(m, 32) + x == BigEndian(n, 32) + y
    ensures m == n && x == y
  {
    SplitAt(BigEndian(m, 32), x, BigEndian(n, 32), y);
    BigEndianInjective(m, n, 32);
  }

  /** Payloads of the same kind can be told from what comes after, and determine their fields. */
  lemma PayloadEnds(f: Field, x: seq<byte>, g: Field, y: seq<byte>)
    requires WellFormed(f) && WellFormed(g)
    requires f.name == g.name && KindOf(f) == KindOf(g)
    requires Payload(f) + x == Payload(g) + y
    ensures f == g && x == y
  {
    match f
    case CommitmentField(_, c) => SplitAt(c, x, g.commitment, y);
    case OptionalField(_, c) => OptionalSplits(c, x, g.optional, y);
    case Uint256Field(_, n) => Uint256Splits(n, x, g.big, y);
    case Uint64Field(_, n) => Word64Splits(n, x, g.word, y);
    case FixedSizeField(_, bytes) => SplitAt(bytes, x, g.bytes, y);
    case VarSizeField(_, bytes) => VarSizeSplits(bytes, x, g.bytes, y);
  }

  /** A field can be told from what comes after. */
  lemma FieldEnds(f: Field, x: seq<byte>, g: Field, y: seq<byte>)
    requires WellFormed(f) && WellFormed(g)
    requires f.name == g.name ==> KindOf(f) == KindOf(g)
    requires FieldBytes(f) + x == FieldBytes(g) + y
    ensures f == g && x == y
  {
    NoSeparatorInUtf8(f.name);
    NoSeparatorInUtf8(g.name);
    var p, q := Payload(f) + x, Payload(g) + y;
    assert FieldBytes(f) + x == f.name + SEPARATOR + p;
    assert FieldBytes(g) + y == g.name + SEPARATOR + q;
    NameEnds(f.name, p, g.name, q);
    PayloadEnds(f, x, g, y);
  }

  lemma TailSchema(fs: seq<Field>, gs: seq<Field>)
    requires fs != [] && gs != [] && SameSchema(fs, gs)
    requires (forall f :: f in fs ==> WellFormed(f)) && (forall g :: g in gs ==> WellFormed(g))
    ensures SameSchema(fs[1..], gs[1..]) && WellFormed(fs[0]) && WellFormed(gs[0])
    ensures (forall f :: f in fs[1..] ==> WellFormed(f)) && (forall g :: g in gs[1..] ==> WellFormed(g))
    ensures fs[0].name == gs[0].name ==> KindOf(fs[0]) == KindOf(gs[0])
  {
    assert fs[0] in fs && gs[0] in gs;
    assert forall h :: h in fs[1..] ==> h in fs;
    assert forall h :: h in gs[1..] ==> h in gs;
  }

  /** Equal transcripts come from equal fields. */
  lemma {:induction false} UniquelyDecodable(fs: seq<Field>, gs: seq<Field>)
    requires forall f :: f in fs ==> WellFormed(f)
    requires forall g :: g in gs ==> WellFormed(g)
    requires SameSchema(fs, gs) && Transcript(fs) == Transcript(gs)
    ensures fs == gs
    decreases |fs|
  {
    if fs != [] && gs != [] {
      TailSchema(fs, gs);
      FieldEnds(fs[0], Transcript(fs[1..]), gs[0], Transcript(gs[1..]));
      UniquelyDecodable(fs[1..], gs[1..]);
      assert fs == [fs[0]] + fs[1..] && gs == [gs[0]] + gs[1..];
    }
  }

  lemma {:induction false} TranscriptAppend(fs: seq<Field>, f: Field)
    requires WellFormed(f) && forall g :: g in fs ==> WellFormed(g)
    ensures Transcript(fs + [f]) == Transcript(fs) + FieldBytes(f)
  {
    if fs == [] {
      assert fs + [f] == [f];
    } else {
      var first, rest := FieldBytes(fs[0]), fs[1..];
      assert (fs + [f])[0] == fs[0] && (fs + [f])[1..] == rest + [f];
      assert forall g :: g in rest ==> g in fs;
      TranscriptAppend(rest, f);
      assert first + (Transcript(rest) + FieldBytes(f)) == (first + Transcript(rest)) + FieldBytes(f);
    }
  }

  // ---------- the builder ----------

  type Hash = seq<byte> -> Commitment

  /** A name with its separator and then the payload is the field. */
  lemma FieldWritten(before: seq<byte>, f: Field, after: seq<byte>)
    requires WellFormed(f)
    requires after == before + (f.name + SEPARATOR) + Payload(f)
    ensures after == before + FieldBytes(f)
  {
  }

  /** `RawCommitmentBuilder`: what has been written to the hasher, and the hash it will apply. */
  class RawCommitmentBuilder {
    const keccak: Hash
    var written: seq<byte>
    ghost var fields: seq<Field>

    /** What has been written is the transcript of the fields so far. */
    ghost predicate Valid()
      reads this
    {
      (forall f :: f in fields ==> WellFormed(f)) && written == Transcript(fields)
    }

    constructor (keccak: Hash, name: seq<byte>)
      requires ValidUtf8(name)
      ensures Valid() && this.keccak == keccak && fields == [FixedSizeField(name, [])]
      ensures written == name + [0xC0, 0x7F]
    {
      this.keccak, written, fields := keccak, [], [];
      new;
      AddFixedSize(name, []);
    }

    method ConstantString(s: seq<byte>)
      requires ValidUtf8(s)
      modifies this`written
      ensures written == old(written) + (s + [0xC0, 0x7F])
    {
      written := written + s;
      FixedSizeBytes(SEPARATOR);
    }

    method FixedSizeBytes(bytes: seq<byte>)
      modifies this`written
      ensures written == old(written) + bytes
    {
      written := written + bytes;
    }

    method Uint64(n: uint64)
      modifies this`written
      ensures written == old(written) + Word64(n)
    {
      FixedSizeBytes(Word64(n));
    }

    /** `FillBytes` writes the magnitude of n. */
    method Uint256(n: int)
      requires Abs(n) < Pow256(32)
      modifies this`written
      ensures written == old(written) + BigEndian(Abs(n), 32)
    {
      FixedSizeBytes(BigEndian(Abs(n), 32));
    }

    method VarSizeBytes(bytes: seq<byte>)
      requires |bytes| < TWO_TO_64
      modifies this`written
      ensures written == old(written) + (Word64(|bytes|) + bytes)
    {
      Uint64(|bytes|);
      written := written + bytes;
    }

    /** Records, for the specification, that a whole field has been written. */
    ghost method Finish(f: Field, before: seq<byte>)
      requires WellFormed(f) && forall g :: g in fields ==> WellFormed(g)
      requires before == Transcript(fields)
      requires written == before + (f.name + SEPARATOR) + Payload(f)
      modifies this`fields
      ensures Valid() && fields == old(fields) + [f]
    {
      FieldWritten(before, f, written);
      TranscriptAppend(fields, f);
      fields := fields + [f];
    }

    method AddCommitment(f: seq<byte>, c: Commitment)
      requires Valid() && ValidUtf8(f)
      modifies this
      ensures Valid() && fields == old(fields) + [CommitmentField(f, c)]
      ensures written == old(written) + (f + [0xC0, 0x7F]) + c
    {
      ConstantString(f);
      FixedSizeBytes(c);
      Finish(CommitmentField(f, c), old(written));
    }

    method OptionalCommitment(c: Option<Commitment>)
      modifies this`written
      ensures written == old(written) + OptionalBytes(c)
    {
      if c.None? {
        Uint64(0);
      } else {
        Uint64(1);
        FixedSizeBytes(c.value);
      }
    }

    method AddOptional(f: seq<byte>, c: Option<Commitment>)
      requires Valid() && ValidUtf8(f)
      modifies this
      ensures Valid() && fields == old(fields) + [OptionalField(f, c)]
      ensures written == old(written) + (f + [0xC0, 0x7F])
                       + if c.None? then [0, 0, 0, 0, 0, 0, 0, 0] else [0, 0, 0, 0, 0, 0, 0, 1] + c.value
    {
      ConstantString(f);
      OptionalCommitment(c);
      SmallWords();
      Finish(OptionalField(f, c), old(written));
    }

    method AddUint256(f: seq<byte>, n: int)
      requires Valid() && ValidUtf8(f) && Abs(n) < Pow256(32)
      modifies this
      ensures Valid() && fields == old(fields) + [Uint256Field(f, Abs(n))]
      ensures written == old(written) + (f + [0xC0, 0x7F]) + BigEndian(Abs(n), 32)
    {
      ConstantString(f);
      Uint256(n);
      Finish(Uint256Field(f, Abs(n)), old(written));
    }

    method AddUint64(f: seq<byte>, n: uint64)
      requires Valid() && ValidUtf8(f)
      modifies this
      ensures Valid() && fields == old(fields) + [Uint64Field(f, n)]
      ensures written == old(written) + (f + [0xC0, 0x7F]) + Word64(n)
    {
      ConstantString(f);
      Uint64(n);
      Finish(Uint64Field(f, n), old(written));
    }

    method AddFixedSize(f: seq<byte>, bytes: seq<byte>)
      requires Valid() && ValidUtf8(f)
      modifies this
      ensures Valid() && fields == old(fields) + [FixedSizeField(f, bytes)]
      ensures written == old(written) + (f + [0xC0, 0x7F]) + bytes
    {
      ConstantString(f);
      FixedSizeBytes(bytes);
      Finish(FixedSizeField(f, bytes), old(written));
    }

    method AddVarSize(f: seq<byte>, bytes: seq<byte>)
      requires Valid() && ValidUtf8(f) && |bytes| < TWO_TO_64
      modifies this
      ensures Valid() && fields == old(fields) + [VarSizeField(f, bytes)]
      ensures written == old(written) + (f + [0xC0, 0x7F]) + (Word64(|bytes|) + bytes)
    {
      ConstantString(f);
      VarSizeBytes(bytes);
      Finish(VarSizeField(f, bytes), old(written));
    }

    /** The commitment is the hash of the transcript of the fields added. */
    method Finalize() returns (c: Commitment)
      requires Valid()
      ensures c == keccak(Transcript(fields))
    {
      c := keccak(written);
    }
  }

  // ---------- types/types.go ----------

  function Ascii(s: string): (bytes: seq<byte>)
    requires forall i :: 0 <= i < |s| ==> s[i] as int <= 0x7F
    ensures |bytes| == |s| && ValidUtf8(bytes)
    ensures forall i :: 0 <= i < |s| ==> bytes[i] == s[i] as int
  {
    var bytes: seq<byte> := seq(|s|, i requires 0 <= i < |s| => s[i] as int);
    AsciiIsUtf8(bytes);
    bytes
  }

  /** The names that `Header.Commit` and `NmtRoot.Commit` use. */
  datatype Names = Names(
    block: seq<byte>, height: seq<byte>, timestamp: seq<byte>, l1Head: seq<byte>, transactionsRoot: seq<byte>,
    nmtRoot: seq<byte>, root: seq<byte>)
  {
    /** All that matters about them: valid UTF-8, and different where the kinds of their fields differ. */
    predicate Usable() {
      && ValidUtf8(block) && ValidUtf8(height) && ValidUtf8(timestamp) && ValidUtf8(l1Head)
      && ValidUtf8(transactionsRoot) && ValidUtf8(nmtRoot) && ValidUtf8(root)
      && block !in {height, timestamp, l1Head, transactionsRoot, nmtRoot}
      && transactionsRoot !in {height, timestamp, l1Head}
      && nmtRoot != root
    }
  }

  /** The names in the source are usable. */
  lemma SourceNamesUsable() returns (names: Names)
    ensures names == Names(Ascii("BLOCK"), Ascii("height"), Ascii("timestamp"), Ascii("l1_head"), Ascii("transactions_root"),
                           Ascii("NMTROOT"), Ascii("root"))
    ensures names.Usable()
  {
    names := Names(Ascii("BLOCK"), Ascii("height"), Ascii("timestamp"), Ascii("l1_head"), Ascii("transactions_root"),
                   Ascii("NMTROOT"), Ascii("root"));
  }

  datatype Header = Header(height: uint64, timestamp: uint64, l1Head: uint64, transactionsRoot: seq<byte>)

  function RootFields(names: Names, root: seq<byte>): seq<Field> {
    [FixedSizeField(names.nmtRoot, []), VarSizeField(names.root, root)]
  }

  function HeaderFields(names: Names, h: Header, root: Commitment): seq<Field> {
    [FixedSizeField(names.block, []), Uint64Field(names.height, h.height), Uint64Field(names.timestamp, h.timestamp),
     Uint64Field(names.l1Head, h.l1Head), CommitmentField(names.transactionsRoot, root)]
  }

  /** What `NmtRoot.Commit` hashes. */
  function RootTranscript(names: Names, root: seq<byte>): seq<byte>
    requires names.Usable() && |root| < TWO_TO_64
  {
    Transcript(RootFields(names, root))
  }

  /** What `Header.Commit` hashes. */
  function HeaderTranscript(names: Names, keccak: Hash, h: Header): seq<byte>
    requires names.Usable() && |h.transactionsRoot| < TWO_TO_64
  {
    Transcript(HeaderFields(names, h, keccak(RootTranscript(names, h.transactionsRoot))))
  }

  lemma TwoFields(f: Field, g: Field)
    requires WellFormed(f) && WellFormed(g)
    ensures Transcript([f, g]) == FieldBytes(f) + FieldBytes(g)
  {
    TranscriptAppend([], f);
    TranscriptAppend([f], g);
    assert [] + [f] == [f] && [f] + [g] == [f, g];
  }

  lemma FiveFields(f: Field, g: Field, k: Field, l: Field, m: Field)
    requires WellFormed(f) && WellFormed(g) && WellFormed(k) && WellFormed(l) && WellFormed(m)
    ensures Transcript([f, g, k, l, m]) == FieldBytes(f) + FieldBytes(g) + FieldBytes(k) + FieldBytes(l) + FieldBytes(m)
  {
    TwoFields(f, g);
    TranscriptAppend([f, g], k);
    TranscriptAppend([f, g] + [k], l);
    TranscriptAppend([f, g] + [k] + [l], m);
    assert [f, g, k, l, m] == [f, g] + [k] + [l] + [m];
  }

  /** The bytes that a root's commitment hashes, one after the other. */
  lemma RootLayout(names: Names, root: seq<byte>)
    requires names.Usable() && |root| < TWO_TO_64
    ensures RootTranscript(names, root)
         == names.nmtRoot + [0xC0, 0x7F]
          + (names.root + [0xC0, 0x7F] + (Word64(|root|) + root))
  {
    TwoFields(FixedSizeField(names.nmtRoot, []), VarSizeField(names.root, root));
  }

  /** The bytes that a header's commitment hashes: each number and the root's commitment under its own name. */
  lemma HeaderLayout(names: Names, keccak: Hash, h: Header)
    requires names.Usable() && |h.transactionsRoot| < TWO_TO_64
    ensures HeaderTranscript(names, keccak, h)
         == names.block + [0xC0, 0x7F]
          + (names.height + [0xC0, 0x7F] + Word64(h.height))
          + (names.timestamp + [0xC0, 0x7F] + Word64(h.timestamp))
          + (names.l1Head + [0xC0, 0x7F] + Word64(h.l1Head))
          + (names.transactionsRoot + [0xC0, 0x7F] + keccak(RootTranscript(names, h.transactionsRoot)))
  {
    var root := keccak(RootTranscript(names, h.transactionsRoot));
    var fs := HeaderFields(names, h, root);
    FiveFields(fs[0], fs[1], fs[2], fs[3], fs[4]);
    assert fs == [fs[0], fs[1], fs[2], fs[3], fs[4]];
    assert FieldBytes(fs[0]) == names.block + [0xC0, 0x7F];
  }

  /** With the names in the source. */
  lemma SourceHeaderLayout(keccak: Hash, h: Header) returns (names: Names)
    requires |h.transactionsRoot| < TWO_TO_64
    ensures names == Names(Ascii("BLOCK"), Ascii("height"), Ascii("timestamp"), Ascii("l1_head"), Ascii("transactions_root"),
                           Ascii("NMTROOT"), Ascii("root"))
    ensures names.Usable()
    ensures HeaderTranscript(names, keccak, h)
         == Ascii("BLOCK") + [0xC0, 0x7F]
          + (Ascii("height") + [0xC0, 0x7F] + Word64(h.height))
          + (Ascii("timestamp") + [0xC0, 0x7F] + Word64(h.timestamp))
          + (Ascii("l1_head") + [0xC0, 0x7F] + Word64(h.l1Head))
          + (Ascii("transactions_root") + [0xC0, 0x7F] + keccak(RootTranscript(names, h.transactionsRoot)))
    ensures RootTranscript(names, h.transactionsRoot)
         == Ascii("NMTROOT") + [0xC0, 0x7F]
          + (Ascii("root") + [0xC0, 0x7F] + (Word64(|h.transactionsRoot|) + h.transactionsRoot))
  {
    names := SourceNamesUsable();
    HeaderLayout(names, keccak, h);
    RootLayout(names, h.transactionsRoot);
  }

  /** `NmtRoot.Commit`. */
  method CommitRoot(names: Names, keccak: Hash, root: seq<byte>) returns (c: Commitment)
    requires names.Usable() && |root| < TWO_TO_64
    ensures c == keccak(RootTranscript(names, root))
  {
    var b := new RawCommitmentBuilder(keccak, names.nmtRoot);
    b.AddVarSize(names.root, root);
    assert b.fields == RootFields(names, root);
    c := b.Finalize();
  }

  /** `Header.Commit`. */
  method CommitHeader(names: Names, keccak: Hash, h: Header) returns (c: Commitment)
    requires names.Usable() && |h.transactionsRoot| < TWO_TO_64
    ensures c == keccak(HeaderTranscript(names, keccak, h))
  {
    var b := new RawCommitmentBuilder(keccak, names.block);
    b.AddUint64(names.height, h.height);
    b.AddUint64(names.timestamp, h.timestamp);
    b.AddUint64(names.l1Head, h.l1Head);
    var root := CommitRoot(names, keccak, h.transactionsRoot);
    b.AddCommitment(names.transactionsRoot, root);
    assert b.fields == HeaderFields(names, h, root);
    c := b.Finalize();
  }

  /** The kind of a header's field, told from its name. */
  function HeaderKind(names: Names, name: seq<byte>): Kind {
    if name == names.block then KFixed(0) else if name == names.transactionsRoot then KCommitment else KUint64
  }

  lemma HeaderKinds(names: Names, h: Header, c: Commitment)
    requires names.Usable()
    ensures forall f :: f in HeaderFields(names, h, c) ==> WellFormed(f) && KindOf(f) == HeaderKind(names, f.name)
  {
  }

  /** A header's transcript determines its three numbers and its root commitment. */
  lemma HeaderTranscriptInjective(names: Names, keccak: Hash, g: Header, h: Header)
    requires names.Usable() && |g.transactionsRoot| < TWO_TO_64 && |h.transactionsRoot| < TWO_TO_64
    requires HeaderTranscript(names, keccak, g) == HeaderTranscript(names, keccak, h)
    ensures g.height == h.height && g.timestamp == h.timestamp && g.l1Head == h.l1Head
    ensures keccak(RootTranscript(names, g.transactionsRoot)) == keccak(RootTranscript(names, h.transactionsRoot))
  {
    var fs := HeaderFields(names, g, keccak(RootTranscript(names, g.transactionsRoot)));
    var gs := HeaderFields(names, h, keccak(RootTranscript(names, h.transactionsRoot)));
    HeaderKinds(names, g, fs[4].commitment);
    HeaderKinds(names, h, gs[4].commitment);
    UniquelyDecodable(fs, gs);
    assert fs[1] == gs[1] && fs[2] == gs[2] && fs[3] == gs[3] && fs[4] == gs[4];
  }

  /** A root's transcript determines the root. */
  lemma RootTranscriptInjective(names: Names, r: seq<byte>, s: seq<byte>)
    requires names.Usable() && |r| < TWO_TO_64 && |s| < TWO_TO_64
    requires RootTranscript(names, r) == RootTranscript(names, s)
    ensures r == s
  {
    var fs, gs := RootFields(names, r), RootFields(names, s);
    UniquelyDecodable(fs, gs);
    assert fs[1] == gs[1];
  }

  /** The transcript of a header is never that of a root. */
  lemma TranscriptsDisjoint(names: Names, keccak: Hash, h: Header, r: seq<byte>)
    requires names.Usable() && |h.transactionsRoot| < TWO_TO_64 && |r| < TWO_TO_64
    ensures HeaderTranscript(names, keccak, h) != RootTranscript(names, r)
  {
    var fs, gs := HeaderFields(names, h, keccak(RootTranscript(names, h.transactionsRoot))), RootFields(names, r);
    if Transcript(fs) == Transcript(gs) {
      FieldEnds(fs[0], Transcript(fs[1..]), gs[0], Transcript(gs[1..]));
    }
  }

  /** Two different headers with the same commitment exhibit a collision of the hash. */
  lemma HeaderCommitmentBinding(names: Names, keccak: Hash, g: Header, h: Header) returns (x: seq<byte>, y: seq<byte>)
    requires names.Usable() && |g.transactionsRoot| < TWO_TO_64 && |h.transactionsRoot| < TWO_TO_64
    requires g != h && keccak(HeaderTranscript(names, keccak, g)) == keccak(HeaderTranscript(names, keccak, h))
    ensures x != y && keccak(x) == keccak(y)
  {
    if HeaderTranscript(names, keccak, g) != HeaderTranscript(names, keccak, h) {
      x, y := HeaderTranscript(names, keccak, g), HeaderTranscript(names, keccak, h);
    } else {
      HeaderTranscriptInjective(names, keccak, g, h);
      x, y := RootTranscript(names, g.transactionsRoot), RootTranscript(names, h.transactionsRoot);
      if x == y {
        RootTranscriptInjective(names, g.transactionsRoot, h.transactionsRoot);
      }
    }
  }
}
