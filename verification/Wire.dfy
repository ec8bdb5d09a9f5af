/**
 The wire format of the control messages: base-128 varints, tags and length-delimited
 records, as the Protocol Buffers Encoding specification describes them and the parse
 loops of mgw.pb.cc use them.
 */
module Wire {
  import opened Media

  /** The largest length a length-delimited record may announce: INT_MAX less the sixteen
      bytes of slop of the input stream. */
  const MAX_LENGTH: nat := 0x7FFF_FFFF - 16

  datatype Option<+T> = None | Some(value: T)

  // ---------------------------------------------------------------- varints

  function EncodeVarint(n: nat): (r: seq<byte>)
    ensures r != []
  {
    if n < 128 then [n] else [n % 128 + 128] + EncodeVarint(n / 128)
  }

  /** At most `k` bytes, the low seven bits first; the value and what follows. */
  function DecodeVarint(bs: seq<byte>, k: nat): (r: Option<(nat, seq<byte>)>)
    ensures r.Some? ==> |r.value.1| < |bs|
  {
    if k == 0 || bs == [] then None
    else if bs[0] < 128 then Some((bs[0], bs[1..]))
    else
      match DecodeVarint(bs[1..], k - 1)
      case None => None
      case Some((v, rest)) => Some((bs[0] - 128 + 128 * v, rest))
  }

  function Pow128(k: nat): (r: nat)
    ensures r >= 1
  {
    if k == 0 then 1 else 128 * Pow128(k - 1)
  }

  lemma {:induction false} VarintRoundTrip(n: nat, k: nat, rest: seq<byte>)
    requires n < Pow128(k) && 0 < k
    ensures DecodeVarint(EncodeVarint(n) + rest, k) == Some((n, rest))
    decreases k
  {
    var bs := EncodeVarint(n) + rest;
    if n < 128 {
      assert bs[1..] == rest;
    } else {
      VarintRoundTrip(n / 128, k - 1, rest);
      assert bs[1..] == EncodeVarint(n / 128) + rest;
    }
  }

  lemma Pow128Values()
    ensures Pow128(5) == 0x8_0000_0000 && Pow128(10) == 0x40_0000_0000_0000_0000
  {
    assert Pow128(2) == 0x4000;
    assert Pow128(4) == 0x1000_0000;
    assert Pow128(5) == 0x8_0000_0000;
    assert Pow128(7) == 0x2_0000_0000_0000;
    assert Pow128(9) == 0x8000_0000_0000_0000;
  }

  /** ReadVarint64: ten bytes, the low 64 bits. */
  function ReadVarint64(bs: seq<byte>): (r: Option<(nat, seq<byte>)>)
    ensures r.Some? ==> |r.value.1| < |bs|
  {
    match DecodeVarint(bs, 10)
    case None => None
    case Some((v, rest)) => Some((Wrap64(v), rest))
  }

  /** ReadTag: five bytes, the low 32 bits. */
  function ReadTag(bs: seq<byte>): (r: Option<(nat, seq<byte>)>)
    ensures r.Some? ==> |r.value.1| < |bs|
  {
    match DecodeVarint(bs, 5)
    case None => None
    case Some((v, rest)) => Some((Wrap32(v), rest))
  }

  /** A length and that many bytes. */
  function ReadBytes(bs: seq<byte>): (r: Option<(seq<byte>, seq<byte>)>)
    ensures r.Some? ==> |r.value.1| < |bs|
  {
    match DecodeVarint(bs, 5)
    case None => None
    case Some((n, rest)) => if n <= MAX_LENGTH && n <= |rest| then Some((rest[..n], rest[n..])) else None
  }

  function WriteBytes(b: seq<byte>): seq<byte> {
    EncodeVarint(|b|) + b
  }

  /** A record is read back, whatever follows it, if and only if its length is allowed. */
  lemma BytesRoundTripIff(b: seq<byte>, rest: seq<byte>)
    requires |b| < 0x8_0000_0000
    ensures ReadBytes(WriteBytes(b) + rest) == Some((b, rest)) <==> |b| <= MAX_LENGTH
  {
    Pow128Values();
    VarintRoundTrip(|b|, 5, b + rest);
    assert WriteBytes(b) + rest == EncodeVarint(|b|) + (b + rest);
    assert (b + rest)[..|b|] == b && (b + rest)[|b|..] == rest;
  }

  // ---------------------------------------------------------------- sizes

  function Log2(n: nat): nat
    requires 0 < n
  {
    if n == 1 then 0 else 1 + Log2(n / 2)
  }

  /** VarintSize32 and VarintSize64: a multiplication and a division by a power of two in
      place of a division by seven. */
  function VarintSize(n: nat): nat {
    (Log2(if n == 0 then 1 else n) * 9 + 73) / 64
  }

  lemma Log2Step(n: nat)
    requires 128 <= n
    ensures Log2(n) == 7 + Log2(n / 128)
  {
    assert Log2(n) == 1 + Log2(n / 2);
    assert Log2(n / 2) == 1 + Log2(n / 4) && n / 2 / 2 == n / 4;
    assert Log2(n / 4) == 1 + Log2(n / 8) && n / 4 / 2 == n / 8;
    assert Log2(n / 8) == 1 + Log2(n / 16) && n / 8 / 2 == n / 16;
    assert Log2(n / 16) == 1 + Log2(n / 32) && n / 16 / 2 == n / 32;
    assert Log2(n / 32) == 1 + Log2(n / 64) && n / 32 / 2 == n / 64;
    assert Log2(n / 64) == 1 + Log2(n / 128) && n / 64 / 2 == n / 128;
  }

  lemma {:induction false} Log2Small(n: nat, k: nat)
    requires 0 < n < Pow2(k)
    ensures Log2(n) < k
    decreases k
  {
    if n > 1 {
      Log2Small(n / 2, k - 1);
    }
  }

  function Pow2(k: nat): nat {
    if k == 0 then 1 else 2 * Pow2(k - 1)
  }

  lemma {:induction false} VarintLength(n: nat)
    requires 0 < n
    ensures |EncodeVarint(n)| == Log2(n) / 7 + 1
    decreases n
  {
    if n >= 128 {
      VarintLength(n / 128);
      Log2Step(n);
    } else {
      assert Pow2(7) == 128 by { assert Pow2(3) == 8; assert Pow2(5) == 32; }
      Log2Small(n, 7);
    }
  }

  /** The multiplication gives the number of bytes actually written, for all 64-bit
      values. */
  lemma VarintSizeExact(n: nat)
    requires n < TWO_TO_THE_64
    ensures |EncodeVarint(n)| == VarintSize(n)
  {
    if n > 0 {
      VarintLength(n);
      Pow2Values();
      Log2Small(n, 64);
      NineSixtyFourths(Log2(n));
    }
  }

  lemma Pow2Values()
    ensures Pow2(64) == TWO_TO_THE_64
  {
    Pow2Add(32, 32);
    Pow2Add(16, 16);
    Pow2Add(8, 8);
    Pow2Add(4, 4);
    assert Pow2(4) == 16 by { assert Pow2(2) == 4; }
  }

  lemma {:induction false} Pow2Add(a: nat, b: nat)
    ensures Pow2(a + b) == Pow2(a) * Pow2(b)
    decreases a
  {
    if a > 0 {
      Pow2Add(a - 1, b);
      assert 2 * (Pow2(a - 1) * Pow2(b)) == (2 * Pow2(a - 1)) * Pow2(b);
    }
  }

  lemma NineSixtyFourths(l: nat)
    requires l < 64
    ensures (l * 9 + 73) / 64 == l / 7 + 1
  {
  }

  // ---------------------------------------------------------------- fields

  datatype Field = Varint(tag: nat, value: nat) | Bytes(tag: nat, bytes: seq<byte>)

  /** A field, a malformed input, or a field of a wire type no message here has. */
  datatype Next = Got(field: Field, rest: seq<byte>) | Bad | Foreign

  /** One round of a parse loop up to the dispatch; a zero or end-group tag ends the
      message before its end, which the caller takes for an error. */
  function NextField(bs: seq<byte>): (r: Next)
    ensures r.Got? ==> |r.rest| < |bs|
  {
    match ReadTag(bs)
    case None => Bad
    case Some((tag, rest)) =>
      if tag == 0 || tag % 8 == 4 then Bad
      else if tag % 8 == 0 then
        match ReadVarint64(rest)
        case None => Bad
        case Some((v, r)) => Got(Varint(tag, v), r)
      else if tag % 8 == 2 then
        match ReadBytes(rest)
        case None => Bad
        case Some((b, r)) => Got(Bytes(tag, b), r)
      else Foreign
  }

  function EncodeField(f: Field): seq<byte> {
    match f
    case Varint(tag, v) => EncodeVarint(tag) + EncodeVarint(v)
    case Bytes(tag, b) => EncodeVarint(tag) + WriteBytes(b)
  }

  predicate FieldOk(f: Field) {
    && 0 < f.tag < TWO_TO_THE_32
    && match f
       case Varint(tag, v) => tag % 8 == 0 && v < TWO_TO_THE_64
       case Bytes(tag, b) => tag % 8 == 2 && |b| <= MAX_LENGTH
  }

  lemma FieldRoundTrip(f: Field, rest: seq<byte>)
    requires FieldOk(f)
    ensures NextField(EncodeField(f) + rest) == Got(f, rest)
  {
    hide EncodeVarint, DecodeVarint, WriteBytes, ReadBytes;
    match f {
      case Varint(tag, v) =>
        TagRoundTrip(tag, EncodeVarint(v) + rest);
        ValueRoundTrip(v, rest);
        assert EncodeField(f) + rest == EncodeVarint(tag) + (EncodeVarint(v) + rest);
      case Bytes(tag, b) =>
        TagRoundTrip(tag, WriteBytes(b) + rest);
        BytesRoundTripIff(b, rest);
        assert EncodeField(f) + rest == EncodeVarint(tag) + (WriteBytes(b) + rest);
    }
  }

  lemma TagRoundTrip(tag: nat, rest: seq<byte>)
    requires tag < TWO_TO_THE_32
    ensures ReadTag(EncodeVarint(tag) + rest) == Some((tag, rest))
  {
    Pow128Values();
    hide EncodeVarint, DecodeVarint, Pow128;
    VarintRoundTrip(tag, 5, rest);
  }

  lemma ValueRoundTrip(v: nat, rest: seq<byte>)
    requires v < TWO_TO_THE_64
    ensures ReadVarint64(EncodeVarint(v) + rest) == Some((v, rest))
  {
    Pow128Values();
    hide EncodeVarint, DecodeVarint, Pow128;
    VarintRoundTrip(v, 10, rest);
  }

  function EncodeFields(fs: seq<Field>): seq<byte> {
    if fs == [] then [] else EncodeField(fs[0]) + EncodeFields(fs[1..])
  }

  lemma {:induction false} EncodeConcat(a: seq<Field>, b: seq<Field>)
    ensures EncodeFields(a + b) == EncodeFields(a) + EncodeFields(b)
    decreases |a|
  {
    hide EncodeField;
    if a == [] {
      assert a + b == b;
    } else {
      EncodeConcat(a[1..], b);
      assert (a + b)[1..] == a[1..] + b;
    }
  }

  // ---------------------------------------------------------------- parse loops

  datatype Parsed<+T> = Ok(value: T) | Malformed | Unknown

  /** A parse loop: fields are applied to the message one by one until the input ends. */
  function Parse<T>(m: T, bs: seq<byte>, apply: (T, Field) -> Parsed<T>): Parsed<T>
    decreases |bs|
  {
    if bs == [] then Ok(m)
    else
      match NextField(bs)
      case Bad => Malformed
      case Foreign => Unknown
      case Got(f, rest) =>
        match apply(m, f)
        case Malformed => Malformed
        case Unknown => Unknown
        case Ok(v) => Parse(v, rest, apply)
  }

  function ApplyAll<T>(m: T, fs: seq<Field>, apply: (T, Field) -> Parsed<T>): Parsed<T> {
    if fs == [] then Ok(m)
    else
      match apply(m, fs[0])
      case Malformed => Malformed
      case Unknown => Unknown
      case Ok(v) => ApplyAll(v, fs[1..], apply)
  }

  lemma FieldNotEmpty(f: Field)
    ensures EncodeField(f) != []
  {
  }

  /** Parsing encoded fields with more input behind them is applying the fields and
      parsing the rest. */
  lemma {:induction false} ParseEncoded<T>(m: T, fs: seq<Field>, rest: seq<byte>, apply: (T, Field) -> Parsed<T>)
    requires forall i :: 0 <= i < |fs| ==> FieldOk(fs[i])
    requires ApplyAll(m, fs, apply).Ok?
    ensures Parse(m, EncodeFields(fs) + rest, apply) == Parse(ApplyAll(m, fs, apply).value, rest, apply)
    decreases |fs|
  {
    hide EncodeField, NextField, FieldOk;
    var bs := EncodeFields(fs) + rest;
    if fs == [] {
      assert bs == rest;
    } else {
      FieldRoundTrip(fs[0], EncodeFields(fs[1..]) + rest);
      assert bs == EncodeField(fs[0]) + (EncodeFields(fs[1..]) + rest);
      FieldNotEmpty(fs[0]);
      ParseEncoded(apply(m, fs[0]).value, fs[1..], rest, apply);
    }
  }

  // ---------------------------------------------------------------- scalars

  type int32 = x: int | -0x8000_0000 <= x < 0x8000_0000

  /** An int32 goes out sign-extended to 64 bits. */
  function SignExtend(x: int32): (r: nat)
    ensures r < TWO_TO_THE_64
  {
    if x < 0 then x + TWO_TO_THE_64 else x
  }

  /** Assignment of a 64-bit varint to an int32 member. */
  function ToInt32(v: nat): int32 {
    var low := v % TWO_TO_THE_32;
    if low < 0x8000_0000 then low else low - TWO_TO_THE_32
  }

  lemma Int32RoundTrip(x: int32)
    ensures ToInt32(SignExtend(x)) == x
    ensures x < 0 ==> |EncodeVarint(SignExtend(x))| == 10
  {
    if x < 0 {
      VarintLength(SignExtend(x));
      Pow2Values();
      assert Pow2(64) == 2 * Pow2(63);
      Log2Small(SignExtend(x), 64);
      Log2Big(SignExtend(x), 63);
    }
  }

  lemma {:induction false} Log2Big(n: nat, k: nat)
    requires Pow2(k) <= n
    ensures 0 < n && k <= Log2(n)
    decreases k
  {
    if k > 0 {
      Log2Big(n / 2, k - 1);
    }
  }

  /** Int32Size: ten bytes for a negative value. */
  function Int32Size(x: int32): nat {
    if x < 0 then 10 else VarintSize(x)
  }
}
