/**
 The bytes of the control messages, number by number as mgw.proto has them, and what the
 parse loops make of each: a varint as the Protocol Buffers Encoding specification
 describes it, the key byte of each member, the default that is not sent.
 */
module MessageBytes {
  import opened Media
  import opened Wire
  import opened Messages

  // ---------------------------------------------------------------- varints

  /** The low seven bits of each byte, the first byte the least significant. */
  function ValueOf(bs: seq<byte>): nat {
    if bs == [] then 0 else bs[0] % 128 + 128 * ValueOf(bs[1..])
  }

  /** A varint: every byte but the last has its high bit set, and the last is zero only for
      zero. */
  predicate WellEncoded(bs: seq<byte>) {
    && bs != []
    && (forall i :: 0 <= i < |bs| - 1 ==> bs[i] >= 128)
    && bs[|bs| - 1] < 128
    && (|bs| > 1 ==> bs[|bs| - 1] > 0)
  }

  /** A number goes out as the varint that has its value. */
  lemma {:induction false} EncodeExact(n: nat)
    ensures WellEncoded(EncodeVarint(n)) && ValueOf(EncodeVarint(n)) == n
    decreases n
  {
    var bs := EncodeVarint(n);
    if n < 128 {
      assert bs[1..] == [];
    } else {
      EncodeExact(n / 128);
      assert bs[1..] == EncodeVarint(n / 128);
    }
  }

  /** And there is only one. */
  lemma {:induction false} EncodeOnly(bs: seq<byte>)
    requires WellEncoded(bs)
    ensures EncodeVarint(ValueOf(bs)) == bs
    decreases |bs|
  {
    if |bs| == 1 {
      assert bs[1..] == [];
      assert bs == [bs[0]];
    } else {
      EncodeOnly(bs[1..]);
      PositiveValue(bs[1..]);
      Quotient(bs[0] % 128, ValueOf(bs[1..]));
      assert bs == [bs[0]] + bs[1..];
    }
  }

  lemma {:induction false} PositiveValue(bs: seq<byte>)
    requires bs != [] && 0 < bs[|bs| - 1] < 128
    ensures ValueOf(bs) > 0
    decreases |bs|
  {
    if |bs| > 1 {
      PositiveValue(bs[1..]);
    }
  }

  lemma Quotient(low: nat, high: nat)
    requires low < 128
    ensures (low + 128 * high) / 128 == high && (low + 128 * high) % 128 == low
  {
  }

  /** The first byte without a high bit, at `i`, ends a varint. */
  predicate EndsAt(bs: seq<byte>, i: nat) {
    i < |bs| && bs[i] < 128 && forall j :: 0 <= j < i ==> bs[j] >= 128
  }

  lemma {:induction false} DecodeAt(bs: seq<byte>, k: nat, i: nat)
    requires i < k && EndsAt(bs, i)
    ensures DecodeVarint(bs, k) == Some((ValueOf(bs[..i + 1]), bs[i + 1..]))
    decreases k
  {
    if i == 0 {
      assert bs[..1] == [bs[0]] && [bs[0]][1..] == [];
    } else {
      DecodeAt(bs[1..], k - 1, i - 1);
      assert bs[..i + 1][1..] == bs[1..][..i] && bs[1..][i..] == bs[i + 1..];
    }
  }

  lemma {:induction false} DecodeNothing(bs: seq<byte>, k: nat)
    requires forall j :: 0 <= j < k && j < |bs| ==> bs[j] >= 128
    ensures DecodeVarint(bs, k) == None
    decreases k
  {
    if k > 0 && bs != [] {
      assert forall j :: 0 <= j < k - 1 && j < |bs[1..]| ==> bs[1..][j] == bs[j + 1];
      DecodeNothing(bs[1..], k - 1);
    }
  }

  /** What is read is the value of the bytes up to the first one without a high bit, if it
      is among the first `k`; otherwise nothing is. */
  lemma DecodeExact(bs: seq<byte>, k: nat)
    ensures (exists i :: 0 <= i < k && EndsAt(bs, i)) || DecodeVarint(bs, k) == None
    ensures forall i :: 0 <= i < k && EndsAt(bs, i) ==> DecodeVarint(bs, k) == Some((ValueOf(bs[..i + 1]), bs[i + 1..]))
  {
    forall i | 0 <= i < k && EndsAt(bs, i)
      ensures DecodeVarint(bs, k) == Some((ValueOf(bs[..i + 1]), bs[i + 1..]))
    {
      DecodeAt(bs, k, i);
    }
    if forall j :: 0 <= j < k && j < |bs| ==> bs[j] >= 128 {
      DecodeNothing(bs, k);
    } else {
      var i := FirstEnd(bs, k);
    }
  }

  lemma {:induction false} FirstEnd(bs: seq<byte>, k: nat) returns (i: nat)
    requires exists j :: 0 <= j < k && j < |bs| && bs[j] < 128
    ensures i < k && EndsAt(bs, i)
    decreases k
  {
    if bs[0] < 128 {
      i := 0;
    } else {
      var j :| 0 <= j < k && j < |bs| && bs[j] < 128;
      assert bs[1..][j - 1] < 128;
      var rest := FirstEnd(bs[1..], k - 1);
      i := rest + 1;
      assert forall x :: 1 <= x < i ==> bs[1..][x - 1] == bs[x];
    }
  }

  // ---------------------------------------------------------------- what goes out

  /** A key byte, the length and the content. */
  function Record(key: byte, content: seq<byte>): seq<byte> {
    [key] + EncodeVarint(|content|) + content
  }

  /** A string member; an empty one is not sent. */
  function Text(key: byte, content: seq<byte>): seq<byte> {
    if content == [] then [] else Record(key, content)
  }

  /** An int32 member; zero is not sent and a negative one goes out as 64 bits. */
  function Number(key: byte, x: int): seq<byte>
    requires -0x8000_0000 <= x < 0x8000_0000
  {
    if x == 0 then [] else [key] + EncodeVarint(if x < 0 then x + 0x1_0000_0000_0000_0000 else x)
  }

  lemma KeyByte(n: nat)
    requires n < 128
    ensures EncodeVarint(n) == [n]
  {
  }

  lemma TextEncoded(key: byte, s: seq<byte>)
    requires key < 128
    ensures EncodeFields(StringField(key, s)) == Text(key, s)
  {
    hide EncodeVarint, EncodeFields;
    KeyByte(key);
    NoFields();
    if s != [] {
      OneField(Bytes(key, s));
      assert EncodeVarint(key) + (EncodeVarint(|s|) + s) == [key] + EncodeVarint(|s|) + s;
    }
  }

  lemma NumberEncoded(key: byte, x: int32)
    requires key < 128
    ensures EncodeFields(IntField(key, x)) == Number(key, x)
  {
    hide EncodeVarint, EncodeFields;
    KeyByte(key);
    NoFields();
    if x != 0 {
      OneField(Varint(key, SignExtend(x)));
    }
  }

  lemma FlagEncoded(b: bool)
    ensures EncodeFields(BoolField(8, b)) == if b then [0x08, 0x01] else []
  {
    hide EncodeVarint, EncodeFields;
    KeyByte(8);
    KeyByte(1);
    NoFields();
    if b {
      OneField(Varint(8, 1));
      assert [8] + [1] == [0x08, 0x01];
    }
  }

  /** type = 1, sn = 2, token = 3. */
  lemma DeviceBytes(d: Device)
    ensures SerializeDevice(d) == Text(0x0A, d.kind) + Text(0x12, d.sn) + Text(0x1A, d.token)
  {
    hide EncodeFields, StringField, Text;
    var a, b, c := StringField(10, d.kind), StringField(18, d.sn), StringField(26, d.token);
    EncodeConcat(a + b, c);
    EncodeConcat(a, b);
    TextEncoded(0x0A, d.kind);
    TextEncoded(0x12, d.sn);
    TextEncoded(0x1A, d.token);
  }

  /** enable = 1, src_channel = 2, out_channel = 3, uri = 4, code = 5, username = 6,
      password = 7. */
  lemma StreamBytes(s: Stream)
    ensures SerializeStream(s)
            == (if s.enable then [0x08, 0x01] else []) + Number(0x10, s.srcChannel) + Number(0x18, s.outChannel)
               + Text(0x22, s.uri) + Text(0x2A, s.code) + Text(0x32, s.username) + Text(0x3A, s.password)
  {
    hide EncodeFields, StringField, IntField, BoolField, Text, Number;
    var a, b, c := BoolField(8, s.enable), IntField(16, s.srcChannel), IntField(24, s.outChannel);
    var d, e, f, g := StringField(34, s.uri), StringField(42, s.code), StringField(50, s.username), StringField(58, s.password);
    EncodeConcat(a, b);
    EncodeConcat(a + b, c);
    EncodeConcat(a + b + c, d);
    EncodeConcat(a + b + c + d, e);
    EncodeConcat(a + b + c + d + e, f);
    EncodeConcat(a + b + c + d + e + f, g);
    FlagEncoded(s.enable);
    NumberEncoded(0x10, s.srcChannel);
    NumberEncoded(0x18, s.outChannel);
    TextEncoded(0x22, s.uri);
    TextEncoded(0x2A, s.code);
    TextEncoded(0x32, s.username);
    TextEncoded(0x3A, s.password);
  }

  /** device = 1, stream = 2; an empty submessage is sent, one that is not there is not. */
  lemma StartBytes(m: StartStream)
    requires StartFits(m)
    ensures SerializeStart(m)
            == (if m.device.Some? then Record(0x0A, SerializeDevice(m.device.value)) else [])
               + (if m.stream.Some? then Record(0x12, SerializeStream(m.stream.value)) else [])
  {
    hide SerializeDevice, SerializeStream, DeviceSize, StreamSize, EncodeVarint;
    KeyByte(10);
    KeyByte(18);
    if m.device.Some? {
      DeviceSizeExact(m.device.value);
    }
    if m.stream.Some? {
      StreamSizeExact(m.stream.value);
    }
  }

  /** start_stream = 20, result = 21, stream_info = 22: two key bytes each. */
  lemma MsgBytes(m: MgwMsg)
    requires MsgFits(m)
    ensures SerializeMsg(m)
            == match m
               case NotSet => []
               case Start(s) => [0xA2, 0x01] + EncodeVarint(|SerializeStart(s)|) + SerializeStart(s)
               case Result => [0xAA, 0x01, 0x00]
               case Info => [0xB2, 0x01, 0x00]
  {
    KeyBytes();
    hide SerializeStart, StartSize, EncodeVarint;
    if m.Start? {
      StartSizeExact(m.start);
    }
  }

  lemma KeyBytes()
    ensures EncodeVarint(162) == [0xA2, 0x01] && EncodeVarint(170) == [0xAA, 0x01] && EncodeVarint(178) == [0xB2, 0x01]
    ensures EncodeVarint(0) == [0x00]
  {
  }

  // ---------------------------------------------------------------- what is read

  /** One field in front of anything else. */
  lemma ParseOne<T>(m: T, f: Field, rest: seq<byte>, apply: (T, Field) -> Parsed<T>)
    requires FieldOk(f)
    ensures Parse(m, EncodeField(f) + rest, apply)
            == match apply(m, f)
               case Ok(v) => Parse(v, rest, apply)
               case Malformed => Malformed
               case Unknown => Unknown
  {
    FieldRoundTrip(f, rest);
    FieldNotEmpty(f);
    hide EncodeField, NextField, FieldOk;
  }

  lemma RecordIsField(key: byte, content: seq<byte>)
    requires 0 < key < 128 && key % 8 == 2 && |content| <= 0x7FFF_FFFF - 16
    ensures Record(key, content) == EncodeField(Bytes(key, content)) && FieldOk(Bytes(key, content))
  {
    hide EncodeVarint;
    KeyByte(key);
    assert EncodeVarint(key) + (EncodeVarint(|content|) + content) == [key] + EncodeVarint(|content|) + content;
  }

  lemma ScalarIsField(key: byte, v: nat)
    requires 0 < key < 128 && key % 8 == 0 && v < 0x1_0000_0000_0000_0000
    ensures [key] + EncodeVarint(v) == EncodeField(Varint(key, v)) && FieldOk(Varint(key, v))
  {
    hide EncodeVarint;
    KeyByte(key);
  }

  /** A record of a device sets the member of its number and nothing else. */
  lemma DeviceRecords(d: Device, b: seq<byte>, rest: seq<byte>)
    requires |b| <= 0x7FFF_FFFF - 16
    ensures ParseDevice(d, Record(0x0A, b) + rest) == ParseDevice(Device(b, d.sn, d.token), rest)
    ensures ParseDevice(d, Record(0x12, b) + rest) == ParseDevice(Device(d.kind, b, d.token), rest)
    ensures ParseDevice(d, Record(0x1A, b) + rest) == ParseDevice(Device(d.kind, d.sn, b), rest)
  {
    hide Parse, EncodeField, Record, FieldOk;
    RecordIsField(0x0A, b);
    RecordIsField(0x12, b);
    RecordIsField(0x1A, b);
    ParseOne(d, Bytes(0x0A, b), rest, ApplyDevice);
    ParseOne(d, Bytes(0x12, b), rest, ApplyDevice);
    ParseOne(d, Bytes(0x1A, b), rest, ApplyDevice);
  }

  lemma StreamTexts(s: Stream, b: seq<byte>, rest: seq<byte>)
    requires |b| <= 0x7FFF_FFFF - 16
    ensures ParseStream(s, Record(0x22, b) + rest)
            == ParseStream(Stream(s.enable, s.srcChannel, s.outChannel, b, s.code, s.username, s.password), rest)
    ensures ParseStream(s, Record(0x2A, b) + rest)
            == ParseStream(Stream(s.enable, s.srcChannel, s.outChannel, s.uri, b, s.username, s.password), rest)
    ensures ParseStream(s, Record(0x32, b) + rest)
            == ParseStream(Stream(s.enable, s.srcChannel, s.outChannel, s.uri, s.code, b, s.password), rest)
    ensures ParseStream(s, Record(0x3A, b) + rest)
            == ParseStream(Stream(s.enable, s.srcChannel, s.outChannel, s.uri, s.code, s.username, b), rest)
  {
    hide Parse, EncodeField, Record, FieldOk;
    RecordIsField(0x22, b);
    RecordIsField(0x2A, b);
    RecordIsField(0x32, b);
    RecordIsField(0x3A, b);
    ParseOne(s, Bytes(0x22, b), rest, ApplyStream);
    ParseOne(s, Bytes(0x2A, b), rest, ApplyStream);
    ParseOne(s, Bytes(0x32, b), rest, ApplyStream);
    ParseOne(s, Bytes(0x3A, b), rest, ApplyStream);
  }

  /** The low 32 bits, as a signed number. */
  function Signed(v: nat): int32 {
    (v + 0x8000_0000) % 0x1_0000_0000 - 0x8000_0000
  }

  lemma StreamScalars(s: Stream, v: nat, rest: seq<byte>)
    requires v < 0x1_0000_0000_0000_0000
    ensures ParseStream(s, [0x08] + EncodeVarint(v) + rest)
            == ParseStream(Stream(v > 0, s.srcChannel, s.outChannel, s.uri, s.code, s.username, s.password), rest)
    ensures ParseStream(s, [0x10] + EncodeVarint(v) + rest)
            == ParseStream(Stream(s.enable, Signed(v), s.outChannel, s.uri, s.code, s.username, s.password), rest)
    ensures ParseStream(s, [0x18] + EncodeVarint(v) + rest)
            == ParseStream(Stream(s.enable, s.srcChannel, Signed(v), s.uri, s.code, s.username, s.password), rest)
  {
    SignedIs(v);
    hide Parse, EncodeField, EncodeVarint, FieldOk, Signed, ToInt32;
    ScalarIsField(0x08, v);
    ScalarIsField(0x10, v);
    ScalarIsField(0x18, v);
    ParseOne(s, Varint(0x08, v), rest, ApplyStream);
    ParseOne(s, Varint(0x10, v), rest, ApplyStream);
    ParseOne(s, Varint(0x18, v), rest, ApplyStream);
  }

  lemma SignedIs(v: nat)
    ensures ToInt32(v) == Signed(v)
  {
  }

  /** A record of a start message is parsed into the submessage of its number, which is made
      when it is not there. */
  lemma StartRecords(m: StartStream, b: seq<byte>, rest: seq<byte>)
    requires |b| <= 0x7FFF_FFFF - 16
    ensures ParseStart(m, Record(0x0A, b) + rest)
            == match ParseDevice(if m.device.Some? then m.device.value else Device([], [], []), b)
               case Ok(d) => ParseStart(StartStream(Some(d), m.stream), rest)
               case Malformed => Malformed
               case Unknown => Unknown
    ensures ParseStart(m, Record(0x12, b) + rest)
            == match ParseStream(if m.stream.Some? then m.stream.value else Stream(false, 0, 0, [], [], [], []), b)
               case Ok(s) => ParseStart(StartStream(m.device, Some(s)), rest)
               case Malformed => Malformed
               case Unknown => Unknown
  {
    hide Parse, EncodeField, Record, FieldOk, ParseDevice, ParseStream;
    RecordIsField(0x0A, b);
    RecordIsField(0x12, b);
    ParseOne(m, Bytes(0x0A, b), rest, ApplyStart);
    ParseOne(m, Bytes(0x12, b), rest, ApplyStart);
  }

  /** A start record is parsed into the start message that is there, or a new one; the two
      others have nothing in them. */
  lemma MsgRecords(m: MgwMsg, b: seq<byte>, rest: seq<byte>)
    requires |b| <= 0x7FFF_FFFF - 16
    ensures ParseMsg(m, [0xA2, 0x01] + EncodeVarint(|b|) + b + rest)
            == match ParseStart(if m.Start? then m.start else StartStream(None, None), b)
               case Ok(s) => ParseMsg(Start(s), rest)
               case Malformed => Malformed
               case Unknown => Unknown
    ensures ParseMsg(m, [0xAA, 0x01, 0x00] + rest) == ParseMsg(Result, rest)
    ensures ParseMsg(m, [0xB2, 0x01, 0x00] + rest) == ParseMsg(Info, rest)
  {
    KeyBytes();
    EmptyParse();
    LongKey(0xA2, 162, b);
    LongKey(0xAA, 170, []);
    LongKey(0xB2, 178, []);
    hide Parse, EncodeField, EncodeVarint, FieldOk, ParseStart;
    ParseOne(m, Bytes(162, b), rest, ApplyMsg);
    ParseOne(m, Bytes(170, []), rest, ApplyMsg);
    ParseOne(m, Bytes(178, []), rest, ApplyMsg);
    assert [0xAA, 0x01] + [0x00] + [] == [0xAA, 0x01, 0x00] && [0xB2, 0x01] + [0x00] + [] == [0xB2, 0x01, 0x00];
  }

  lemma EmptyParse()
    ensures Parse((), [], ApplyNothing) == Ok(())
  {
  }

  lemma LongKey(low: byte, tag: nat, b: seq<byte>)
    requires EncodeVarint(tag) == [low, 0x01] && 0 < tag < 0x1_0000_0000 && tag % 8 == 2 && |b| <= 0x7FFF_FFFF - 16
    ensures [low, 0x01] + EncodeVarint(|b|) + b == EncodeField(Bytes(tag, b)) && FieldOk(Bytes(tag, b))
  {
    hide EncodeVarint;
    assert [low, 0x01] + EncodeVarint(|b|) + b == [low, 0x01] + (EncodeVarint(|b|) + b);
  }

  /** Every other field is unknown, and a record that announces more than INT_MAX less
      sixteen bytes is malformed. */
  lemma OtherFields(f: Field, rest: seq<byte>)
    requires FieldOk(f)
    ensures !(f.Bytes? && f.tag in [0x0A, 0x12, 0x1A]) ==> forall d :: ParseDevice(d, EncodeField(f) + rest) == Unknown
    ensures !(f.Bytes? && f.tag in [0x22, 0x2A, 0x32, 0x3A]) && !(f.Varint? && f.tag in [0x08, 0x10, 0x18]) ==>
              forall s :: ParseStream(s, EncodeField(f) + rest) == Unknown
    ensures !(f.Bytes? && f.tag in [0x0A, 0x12]) ==> forall m :: ParseStart(m, EncodeField(f) + rest) == Unknown
    ensures !(f.Bytes? && f.tag in [162, 170, 178]) ==> forall m :: ParseMsg(m, EncodeField(f) + rest) == Unknown
  {
    hide Parse, EncodeField, FieldOk;
    forall d ensures ParseDevice(d, EncodeField(f) + rest) == (match ApplyDevice(d, f) case Ok(v) => ParseDevice(v, rest) case Malformed => Malformed case Unknown => Unknown) {
      ParseOne(d, f, rest, ApplyDevice);
    }
    forall s ensures ParseStream(s, EncodeField(f) + rest) == (match ApplyStream(s, f) case Ok(v) => ParseStream(v, rest) case Malformed => Malformed case Unknown => Unknown) {
      ParseOne(s, f, rest, ApplyStream);
    }
    forall m ensures ParseStart(m, EncodeField(f) + rest) == (match ApplyStart(m, f) case Ok(v) => ParseStart(v, rest) case Malformed => Malformed case Unknown => Unknown) {
      ParseOne(m, f, rest, ApplyStart);
    }
    forall m ensures ParseMsg(m, EncodeField(f) + rest) == (match ApplyMsg(m, f) case Ok(v) => ParseMsg(v, rest) case Malformed => Malformed case Unknown => Unknown) {
      ParseOne(m, f, rest, ApplyMsg);
    }
  }

  lemma TooLongIsMalformed(key: byte, b: seq<byte>, rest: seq<byte>, d: Device)
    requires 0 < key < 128 && key % 8 == 2 && 0x7FFF_FFFF - 16 < |b| < 0x8_0000_0000
    ensures ParseDevice(d, Record(key, b) + rest) == Malformed
  {
    var content := EncodeVarint(|b|) + (b + rest);
    hide EncodeVarint, DecodeVarint, Pow128;
    KeyByte(key);
    assert Record(key, b) + rest == EncodeVarint(key) + content;
    TagRoundTrip(key, content);
    Pow128Values();
    VarintRoundTrip(|b|, 5, b + rest);
  }

  /** A key that does not end in five bytes, or a value that does not in ten, is malformed,
      and so is the key of an end group. */
  lemma UnendedIsMalformed(d: Device, s: Stream, bs: seq<byte>)
    ensures bs != [] && (forall i :: 0 <= i < 5 ==> !EndsAt(bs, i)) ==> ParseDevice(d, bs) == Malformed
    ensures (forall i :: 0 <= i < 10 ==> !EndsAt(bs, i)) ==> ParseStream(s, [0x08] + bs) == Malformed
    ensures ParseDevice(d, [0x00] + bs) == Malformed && ParseDevice(d, [0x0C] + bs) == Malformed
  {
    DecodeExact(bs, 5);
    DecodeExact(bs, 10);
    KeyByte(8);
    KeyByte(0);
    KeyByte(12);
    hide DecodeVarint, EncodeVarint, ValueOf, EndsAt;
    TagRoundTrip(8, bs);
    TagRoundTrip(0, bs);
    TagRoundTrip(12, bs);
  }
}
