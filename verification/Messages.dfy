/** The control messages of mgw.pb.cc as values: serialize, size, parse and merge. */
module Messages {
  import opened Media
  import opened Wire

  // An empty string, a zero and false are the defaults, and are not sent.
  datatype Device = Device(kind: seq<byte>, sn: seq<byte>, token: seq<byte>)

  datatype Stream = Stream(enable: bool, srcChannel: int32, outChannel: int32,
                           uri: seq<byte>, code: seq<byte>, username: seq<byte>, password: seq<byte>)

  // A submessage that is there but empty differs from one that is not there.
  datatype StartStream = StartStream(device: Option<Device>, stream: Option<Stream>)

  /** The oneof of MgwMsg; ReqResult and StreamInfo have no members. */
  datatype MgwMsg = NotSet | Start(start: StartStream) | Result | Info

  const NoDevice := Device([], [], [])
  const NoStream := Stream(false, 0, 0, [], [], [], [])
  const NoStart := StartStream(None, None)

  // ---------------------------------------------------------------- fields on the wire

  function StringField(tag: nat, s: seq<byte>): seq<Field> {
    if |s| > 0 then [Bytes(tag, s)] else []
  }

  function IntField(tag: nat, x: int32): seq<Field> {
    if x != 0 then [Varint(tag, SignExtend(x))] else []
  }

  function BoolField(tag: nat, b: bool): seq<Field> {
    if b then [Varint(tag, 1)] else []
  }

  function DeviceFields(d: Device): seq<Field> {
    StringField(10, d.kind) + StringField(18, d.sn) + StringField(26, d.token)
  }

  function StreamFields(s: Stream): seq<Field> {
    BoolField(8, s.enable) + IntField(16, s.srcChannel) + IntField(24, s.outChannel)
    + StringField(34, s.uri) + StringField(42, s.code) + StringField(50, s.username) + StringField(58, s.password)
  }

  function SerializeDevice(d: Device): seq<byte> {
    EncodeFields(DeviceFields(d))
  }

  function SerializeStream(s: Stream): seq<byte> {
    EncodeFields(StreamFields(s))
  }

  // ---------------------------------------------------------------- sizes

  /** LengthDelimitedSize, with its cast to 32 bits. */
  function DelimitedSize(n: nat): nat {
    n + VarintSize(Wrap32(n))
  }

  function StringSize(s: seq<byte>): nat {
    if |s| > 0 then 1 + DelimitedSize(|s|) else 0
  }

  function IntSize(x: int32): nat {
    if x != 0 then 1 + Int32Size(x) else 0
  }

  function DeviceSize(d: Device): nat {
    StringSize(d.kind) + StringSize(d.sn) + StringSize(d.token)
  }

  function StreamSize(s: Stream): nat {
    StringSize(s.uri) + StringSize(s.code) + StringSize(s.username) + StringSize(s.password)
    + (if s.enable then 1 + 1 else 0) + IntSize(s.srcChannel) + IntSize(s.outChannel)
  }

  function StartSize(m: StartStream): nat {
    (if m.device.Some? then 1 + DelimitedSize(DeviceSize(m.device.value)) else 0)
    + (if m.stream.Some? then 1 + DelimitedSize(StreamSize(m.stream.value)) else 0)
  }

  function MsgSize(m: MgwMsg): nat {
    match m
    case NotSet => 0
    case Start(s) => 2 + DelimitedSize(StartSize(s))
    case Result => 2 + DelimitedSize(0)
    case Info => 2 + DelimitedSize(0)
  }

  // ---------------------------------------------------------------- nested messages

  /** InternalWriteMessage: the length written is the cached size, not the number of bytes
      that follow. */
  function WriteMessage(tag: nat, size: nat, bytes: seq<byte>): seq<byte> {
    EncodeVarint(tag) + EncodeVarint(size) + bytes
  }

  function SerializeStart(m: StartStream): seq<byte> {
    (if m.device.Some? then WriteMessage(10, DeviceSize(m.device.value), SerializeDevice(m.device.value)) else [])
    + (if m.stream.Some? then WriteMessage(18, StreamSize(m.stream.value), SerializeStream(m.stream.value)) else [])
  }

  function SerializeMsg(m: MgwMsg): seq<byte> {
    match m
    case NotSet => []
    case Start(s) => WriteMessage(162, StartSize(s), SerializeStart(s))
    case Result => WriteMessage(170, 0, [])
    case Info => WriteMessage(178, 0, [])
  }

  // ---------------------------------------------------------------- parsing

  function ApplyDevice(d: Device, f: Field): Parsed<Device> {
    match f
    case Bytes(tag, b) =>
      if tag == 10 then Ok(d.(kind := b))
      else if tag == 18 then Ok(d.(sn := b))
      else if tag == 26 then Ok(d.(token := b))
      else Unknown
    case Varint(_, _) => Unknown
  }

  function ApplyStream(s: Stream, f: Field): Parsed<Stream> {
    match f
    case Varint(tag, v) =>
      if tag == 8 then Ok(s.(enable := v != 0))
      else if tag == 16 then Ok(s.(srcChannel := ToInt32(v)))
      else if tag == 24 then Ok(s.(outChannel := ToInt32(v)))
      else Unknown
    case Bytes(tag, b) =>
      if tag == 34 then Ok(s.(uri := b))
      else if tag == 42 then Ok(s.(code := b))
      else if tag == 50 then Ok(s.(username := b))
      else if tag == 58 then Ok(s.(password := b))
      else Unknown
  }

  function ParseDevice(d: Device, bs: seq<byte>): Parsed<Device> {
    Parse(d, bs, ApplyDevice)
  }

  function ParseStream(s: Stream, bs: seq<byte>): Parsed<Stream> {
    Parse(s, bs, ApplyStream)
  }

  /** The submessage, made when it is not there yet (_internal_mutable_*). */
  function MutableDevice(m: StartStream): Device {
    if m.device.Some? then m.device.value else NoDevice
  }

  function MutableStream(m: StartStream): Stream {
    if m.stream.Some? then m.stream.value else NoStream
  }

  function ApplyStart(m: StartStream, f: Field): Parsed<StartStream> {
    match f
    case Varint(_, _) => Unknown
    case Bytes(tag, b) =>
      if tag == 10 then
        match ParseDevice(MutableDevice(m), b)
        case Ok(d) => Ok(m.(device := Some(d)))
        case Malformed => Malformed
        case Unknown => Unknown
      else if tag == 18 then
        match ParseStream(MutableStream(m), b)
        case Ok(s) => Ok(m.(stream := Some(s)))
        case Malformed => Malformed
        case Unknown => Unknown
      else Unknown
  }

  function ParseStart(m: StartStream, bs: seq<byte>): Parsed<StartStream> {
    Parse(m, bs, ApplyStart)
  }

  /** Another case of the oneof is cleared first, the same one is kept. */
  function MutableStart(m: MgwMsg): StartStream {
    if m.Start? then m.start else NoStart
  }

  /** A message without members: any field is unknown. */
  function ApplyNothing(m: (), f: Field): Parsed<()> {
    Unknown
  }

  function ApplyMsg(m: MgwMsg, f: Field): Parsed<MgwMsg> {
    match f
    case Varint(_, _) => Unknown
    case Bytes(tag, b) =>
      if tag == 162 then
        match ParseStart(MutableStart(m), b)
        case Ok(s) => Ok(Start(s))
        case Malformed => Malformed
        case Unknown => Unknown
      else if tag == 170 || tag == 178 then
        match Parse((), b, ApplyNothing)
        case Ok(_) => Ok(if tag == 170 then Result else Info)
        case Malformed => Malformed
        case Unknown => Unknown
      else Unknown
  }

  function ParseMsg(m: MgwMsg, bs: seq<byte>): Parsed<MgwMsg> {
    Parse(m, bs, ApplyMsg)
  }

  // ---------------------------------------------------------------- merging

  function Newer(a: seq<byte>, b: seq<byte>): seq<byte> {
    if |b| > 0 then b else a
  }

  function MergeDevice(a: Device, b: Device): Device {
    Device(Newer(a.kind, b.kind), Newer(a.sn, b.sn), Newer(a.token, b.token))
  }

  function MergeStream(a: Stream, b: Stream): Stream {
    Stream(a.enable || b.enable,
           if b.srcChannel != 0 then b.srcChannel else a.srcChannel,
           if b.outChannel != 0 then b.outChannel else a.outChannel,
           Newer(a.uri, b.uri), Newer(a.code, b.code), Newer(a.username, b.username), Newer(a.password, b.password))
  }

  function MergeStart(a: StartStream, b: StartStream): StartStream {
    StartStream(if b.device.Some? then Some(MergeDevice(MutableDevice(a), b.device.value)) else a.device,
                if b.stream.Some? then Some(MergeStream(MutableStream(a), b.stream.value)) else a.stream)
  }

  function MergeMsg(a: MgwMsg, b: MgwMsg): MgwMsg {
    match b
    case NotSet => a
    case Start(s) => Start(MergeStart(MutableStart(a), s))
    case Result => Result
    case Info => Info
  }

  // ---------------------------------------------------------------- what can be sent

  predicate Short(s: seq<byte>) {
    |s| <= MAX_LENGTH
  }

  predicate DeviceFits(d: Device) {
    Short(d.kind) && Short(d.sn) && Short(d.token)
  }

  predicate StreamFits(s: Stream) {
    Short(s.uri) && Short(s.code) && Short(s.username) && Short(s.password)
  }

  predicate StartFits(m: StartStream) {
    && (m.device.Some? ==> DeviceFits(m.device.value) && DeviceSize(m.device.value) <= MAX_LENGTH)
    && (m.stream.Some? ==> StreamFits(m.stream.value) && StreamSize(m.stream.value) <= MAX_LENGTH)
  }

  /** Every length that goes out is one a parser accepts. */
  predicate MsgFits(m: MgwMsg) {
    m.Start? ==> StartFits(m.start) && StartSize(m.start) <= MAX_LENGTH
  }

  // ---------------------------------------------------------------- sizes are exact

  lemma StringSizeExact(tag: nat, s: seq<byte>)
    requires 0 < tag < 128 && Short(s)
    ensures |EncodeFields(StringField(tag, s))| == StringSize(s)
  {
    hide EncodeVarint, EncodeFields, DelimitedSize;
    ShortTag(tag);
    if |s| > 0 {
      OneField(Bytes(tag, s));
      DelimitedSizeExact(|s|);
    } else {
      NoFields();
    }
  }

  lemma DelimitedSizeExact(n: nat)
    requires n < TWO_TO_THE_32
    ensures DelimitedSize(n) == |EncodeVarint(n)| + n
  {
    hide VarintSize, EncodeVarint, Log2;
    VarintSizeExact(n);
  }

  lemma ShortTag(tag: nat)
    requires tag < 128
    ensures |EncodeVarint(tag)| == 1
  {
  }

  lemma OneField(f: Field)
    ensures EncodeFields([f]) == EncodeField(f)
  {
    assert EncodeFields([f]) == EncodeField(f) + EncodeFields([f][1..]);
  }

  lemma IntSizeExact(tag: nat, x: int32)
    requires 0 < tag < 128
    ensures |EncodeFields(IntField(tag, x))| == IntSize(x)
  {
    if x != 0 {
      OneField(Varint(tag, SignExtend(x)));
      Int32RoundTrip(x);
      if x > 0 {
        VarintSizeExact(x);
      }
    }
  }

  lemma DeviceSizeExact(d: Device)
    requires DeviceFits(d)
    ensures |SerializeDevice(d)| == DeviceSize(d)
  {
    hide EncodeFields, StringField, StringSize;
    var a, b, c := StringField(10, d.kind), StringField(18, d.sn), StringField(26, d.token);
    EncodeConcat(a + b, c);
    EncodeConcat(a, b);
    StringSizeExact(10, d.kind);
    StringSizeExact(18, d.sn);
    StringSizeExact(26, d.token);
  }

  lemma StreamSizeExact(s: Stream)
    requires StreamFits(s)
    ensures |SerializeStream(s)| == StreamSize(s)
  {
    BoolSizeExact(s.enable);
    hide EncodeFields, StringField, IntField, BoolField, StringSize, IntSize;
    var a, b, c := BoolField(8, s.enable), IntField(16, s.srcChannel), IntField(24, s.outChannel);
    var d, e, f, g := StringField(34, s.uri), StringField(42, s.code), StringField(50, s.username), StringField(58, s.password);
    EncodeConcat(a, b);
    EncodeConcat(a + b, c);
    EncodeConcat(a + b + c, d);
    EncodeConcat(a + b + c + d, e);
    EncodeConcat(a + b + c + d + e, f);
    EncodeConcat(a + b + c + d + e + f, g);
    IntSizeExact(16, s.srcChannel);
    IntSizeExact(24, s.outChannel);
    StringSizeExact(34, s.uri);
    StringSizeExact(42, s.code);
    StringSizeExact(50, s.username);
    StringSizeExact(58, s.password);
  }

  lemma BoolSizeExact(b: bool)
    ensures |EncodeFields(BoolField(8, b))| == if b then 2 else 0
  {
    if b {
      OneField(Varint(8, 1));
    }
  }

  /** With the right size in front, a nested message is a length-delimited field. */
  lemma NestedIsField(tag: nat, size: nat, bytes: seq<byte>)
    requires size == |bytes|
    ensures WriteMessage(tag, size, bytes) == EncodeField(Bytes(tag, bytes))
  {
  }

  lemma StartSizeExact(m: StartStream)
    requires StartFits(m)
    ensures |SerializeStart(m)| == StartSize(m)
  {
    hide SerializeDevice, SerializeStream, DeviceSize, StreamSize, EncodeVarint, DelimitedSize, DeviceFits, StreamFits;
    ShortTag(10);
    ShortTag(18);
    if m.device.Some? {
      DeviceSizeExact(m.device.value);
      DelimitedSizeExact(DeviceSize(m.device.value));
    }
    if m.stream.Some? {
      StreamSizeExact(m.stream.value);
      DelimitedSizeExact(StreamSize(m.stream.value));
    }
  }

  /** ByteSizeLong is the number of bytes serialized, at every level. */
  lemma MsgSizeExact(m: MgwMsg)
    requires MsgFits(m)
    ensures |SerializeMsg(m)| == MsgSize(m)
    ensures m.Start? ==> |SerializeStart(m.start)| == StartSize(m.start)
  {
    hide SerializeStart, StartSize, EncodeVarint, DelimitedSize;
    TagLengths();
    if m.Start? {
      StartSizeExact(m.start);
      DelimitedSizeExact(StartSize(m.start));
    }
    DelimitedSizeExact(0);
  }

  lemma TagLengths()
    ensures |EncodeVarint(162)| == |EncodeVarint(170)| == |EncodeVarint(178)| == 2
  {
  }

  // ---------------------------------------------------------------- parsing is merging

  lemma {:induction false} ApplyConcat<T>(m: T, a: seq<Field>, b: seq<Field>, apply: (T, Field) -> Parsed<T>)
    requires ApplyAll(m, a, apply).Ok?
    ensures ApplyAll(m, a + b, apply) == ApplyAll(ApplyAll(m, a, apply).value, b, apply)
    decreases |a|
  {
    if a == [] {
      assert a + b == b;
    } else {
      ApplyConcat(apply(m, a[0]).value, a[1..], b, apply);
      assert (a + b)[1..] == a[1..] + b && (a + b)[0] == a[0];
    }
  }

  lemma ApplyOptional<T>(m: T, fs: seq<Field>, apply: (T, Field) -> Parsed<T>)
    requires |fs| <= 1
    ensures ApplyAll(m, fs, apply) == if fs == [] then Ok(m) else apply(m, fs[0])
  {
    if fs != [] {
      assert fs[1..] == [];
    }
  }

  /** One optional field after others that have been applied already. */
  lemma ApplyNext<T>(m: T, before: seq<Field>, fs: seq<Field>, v: T, apply: (T, Field) -> Parsed<T>)
    requires |fs| <= 1 && ApplyAll(m, before, apply) == Ok(v)
    ensures ApplyAll(m, before + fs, apply) == if fs == [] then Ok(v) else apply(v, fs[0])
  {
    ApplyConcat(m, before, fs, apply);
    ApplyOptional(v, fs, apply);
  }

  lemma DeviceApplied(a: Device, b: Device)
    ensures ApplyAll(a, DeviceFields(b), ApplyDevice) == Ok(MergeDevice(a, b))
  {
    hide ApplyAll;
    var x, y, z := StringField(10, b.kind), StringField(18, b.sn), StringField(26, b.token);
    var a1 := a.(kind := Newer(a.kind, b.kind));
    var a2 := a1.(sn := Newer(a.sn, b.sn));
    ApplyOptional(a, x, ApplyDevice);
    ApplyNext(a, x, y, a1, ApplyDevice);
    ApplyNext(a, x + y, z, a2, ApplyDevice);
  }

  lemma StreamApplied(a: Stream, b: Stream)
    ensures ApplyAll(a, StreamFields(b), ApplyStream) == Ok(MergeStream(a, b))
  {
    Int32RoundTrip(b.srcChannel);
    Int32RoundTrip(b.outChannel);
    hide ApplyAll, SignExtend, ToInt32, EncodeVarint;
    var f1, f2, f3 := BoolField(8, b.enable), IntField(16, b.srcChannel), IntField(24, b.outChannel);
    var f4, f5, f6, f7 := StringField(34, b.uri), StringField(42, b.code), StringField(50, b.username), StringField(58, b.password);
    var a1 := a.(enable := a.enable || b.enable);
    var a2 := a1.(srcChannel := if b.srcChannel != 0 then b.srcChannel else a.srcChannel);
    var a3 := a2.(outChannel := if b.outChannel != 0 then b.outChannel else a.outChannel);
    var a4 := a3.(uri := Newer(a.uri, b.uri));
    var a5 := a4.(code := Newer(a.code, b.code));
    var a6 := a5.(username := Newer(a.username, b.username));
    ApplyOptional(a, f1, ApplyStream);
    ApplyNext(a, f1, f2, a1, ApplyStream);
    ApplyNext(a, f1 + f2, f3, a2, ApplyStream);
    ApplyNext(a, f1 + f2 + f3, f4, a3, ApplyStream);
    ApplyNext(a, f1 + f2 + f3 + f4, f5, a4, ApplyStream);
    ApplyNext(a, f1 + f2 + f3 + f4 + f5, f6, a5, ApplyStream);
    ApplyNext(a, f1 + f2 + f3 + f4 + f5 + f6, f7, a6, ApplyStream);
  }

  lemma DeviceFieldsOk(d: Device)
    requires DeviceFits(d)
    ensures forall i :: 0 <= i < |DeviceFields(d)| ==> FieldOk(DeviceFields(d)[i])
  {
  }

  lemma StreamFieldsOk(s: Stream)
    requires StreamFits(s)
    ensures forall i :: 0 <= i < |StreamFields(s)| ==> FieldOk(StreamFields(s)[i])
  {
    hide SignExtend;
    var fs := BoolField(8, s.enable) + IntField(16, s.srcChannel) + IntField(24, s.outChannel);
    assert forall i :: 0 <= i < |fs| ==> FieldOk(fs[i]);
  }

  lemma DeviceParsed(a: Device, b: Device, rest: seq<byte>)
    requires DeviceFits(b)
    ensures ParseDevice(a, SerializeDevice(b) + rest) == ParseDevice(MergeDevice(a, b), rest)
  {
    DeviceFieldsOk(b);
    DeviceApplied(a, b);
    hide DeviceFields, MergeDevice, Parse, ApplyAll, ApplyDevice, EncodeFields, FieldOk;
    ParseEncoded(a, DeviceFields(b), rest, ApplyDevice);
  }

  lemma StreamParsed(a: Stream, b: Stream, rest: seq<byte>)
    requires StreamFits(b)
    ensures ParseStream(a, SerializeStream(b) + rest) == ParseStream(MergeStream(a, b), rest)
  {
    StreamFieldsOk(b);
    StreamApplied(a, b);
    hide StreamFields, MergeStream, Parse, ApplyAll, ApplyStream, EncodeFields, FieldOk;
    ParseEncoded(a, StreamFields(b), rest, ApplyStream);
  }

  function StartFields(m: StartStream): seq<Field> {
    (if m.device.Some? then [Bytes(10, SerializeDevice(m.device.value))] else [])
    + (if m.stream.Some? then [Bytes(18, SerializeStream(m.stream.value))] else [])
  }

  lemma StartEncoded(m: StartStream)
    requires StartFits(m)
    ensures SerializeStart(m) == EncodeFields(StartFields(m))
    ensures forall i :: 0 <= i < |StartFields(m)| ==> FieldOk(StartFields(m)[i])
  {
    hide SerializeDevice, SerializeStream, DeviceSize, StreamSize, EncodeFields, EncodeField, WriteMessage;
    var x := if m.device.Some? then [Bytes(10, SerializeDevice(m.device.value))] else [];
    var y := if m.stream.Some? then [Bytes(18, SerializeStream(m.stream.value))] else [];
    EncodeConcat(x, y);
    NoFields();
    if m.device.Some? {
      DeviceSizeExact(m.device.value);
      NestedIsField(10, DeviceSize(m.device.value), SerializeDevice(m.device.value));
      OneField(x[0]);
    }
    if m.stream.Some? {
      StreamSizeExact(m.stream.value);
      NestedIsField(18, StreamSize(m.stream.value), SerializeStream(m.stream.value));
      OneField(y[0]);
    }
  }

  lemma NoFields()
    ensures EncodeFields([]) == []
  {
  }

  lemma StartApplied(a: StartStream, b: StartStream)
    requires StartFits(b)
    ensures ApplyAll(a, StartFields(b), ApplyStart) == Ok(MergeStart(a, b))
  {
    hide ApplyAll, SerializeDevice, SerializeStream, DeviceSize, StreamSize, MergeDevice, MergeStream, Parse;
    var x := if b.device.Some? then [Bytes(10, SerializeDevice(b.device.value))] else [];
    var y := if b.stream.Some? then [Bytes(18, SerializeStream(b.stream.value))] else [];
    var a1 := a.(device := MergeStart(a, b).device);
    if b.device.Some? {
      DeviceWhole(MutableDevice(a), b.device.value);
    }
    if b.stream.Some? {
      StreamWhole(MutableStream(a1), b.stream.value);
    }
    ApplyOptional(a, x, ApplyStart);
    ApplyNext(a, x, y, a1, ApplyStart);
  }

  lemma DeviceWhole(a: Device, b: Device)
    requires DeviceFits(b)
    ensures ParseDevice(a, SerializeDevice(b)) == Ok(MergeDevice(a, b))
  {
    DeviceParsed(a, b, []);
    assert SerializeDevice(b) + [] == SerializeDevice(b);
  }

  lemma StreamWhole(a: Stream, b: Stream)
    requires StreamFits(b)
    ensures ParseStream(a, SerializeStream(b)) == Ok(MergeStream(a, b))
  {
    StreamParsed(a, b, []);
    assert SerializeStream(b) + [] == SerializeStream(b);
  }

  lemma StartParsed(a: StartStream, b: StartStream, rest: seq<byte>)
    requires StartFits(b)
    ensures ParseStart(a, SerializeStart(b) + rest) == ParseStart(MergeStart(a, b), rest)
  {
    StartEncoded(b);
    StartApplied(a, b);
    hide StartFields, MergeStart, Parse, ApplyAll, ApplyStart, EncodeFields, FieldOk, SerializeStart;
    ParseEncoded(a, StartFields(b), rest, ApplyStart);
  }

  /** What MgwMsg sends as a field; nothing for a oneof that is not set. */
  function MsgFields(m: MgwMsg): seq<Field> {
    match m
    case NotSet => []
    case Start(s) => [Bytes(162, SerializeStart(s))]
    case Result => [Bytes(170, [])]
    case Info => [Bytes(178, [])]
  }

  lemma MsgEncoded(m: MgwMsg)
    requires MsgFits(m)
    ensures SerializeMsg(m) == EncodeFields(MsgFields(m))
    ensures forall i :: 0 <= i < |MsgFields(m)| ==> FieldOk(MsgFields(m)[i])
  {
    hide SerializeStart, StartSize, EncodeFields, EncodeField, WriteMessage;
    NoFields();
    NestedIsField(170, 0, []);
    NestedIsField(178, 0, []);
    if m.Start? {
      StartSizeExact(m.start);
      NestedIsField(162, StartSize(m.start), SerializeStart(m.start));
    }
    if m != NotSet {
      OneField(MsgFields(m)[0]);
    }
  }

  lemma MsgApplied(a: MgwMsg, b: MgwMsg)
    requires MsgFits(b)
    ensures ApplyAll(a, MsgFields(b), ApplyMsg) == Ok(MergeMsg(a, b))
  {
    hide ApplyAll, SerializeStart, MergeStart, StartSize, StartFits;
    ApplyOptional(a, MsgFields(b), ApplyMsg);
    if b.Start? {
      StartParsed(MutableStart(a), b.start, []);
      assert SerializeStart(b.start) + [] == SerializeStart(b.start);
    }
  }

  /** Parsing a serialized message into another one, with anything behind it, is merging
      it in and going on. */
  lemma ParseIsMerge(a: MgwMsg, b: MgwMsg, rest: seq<byte>)
    requires MsgFits(b)
    ensures ParseMsg(a, SerializeMsg(b) + rest) == ParseMsg(MergeMsg(a, b), rest)
  {
    MsgEncoded(b);
    MsgApplied(a, b);
    hide MsgFields, MergeMsg, Parse, ApplyAll, ApplyMsg, EncodeFields, FieldOk, SerializeMsg;
    ParseEncoded(a, MsgFields(b), rest, ApplyMsg);
  }

  /** Parsing two serialized messages in one input is merging the second into the first:
      members replaced only by non-defaults, submessages merged, the same case of the
      oneof merged and another one replaced. */
  lemma ConcatenationIsMerge(a: MgwMsg, b: MgwMsg)
    requires MsgFits(a) && MsgFits(b)
    ensures ParseMsg(NotSet, SerializeMsg(a) + SerializeMsg(b)) == Ok(MergeMsg(a, b))
  {
    ParseIsMerge(NotSet, a, SerializeMsg(b));
    MergeIntoEmpty(a);
    ParseIsMerge(a, b, []);
    assert SerializeMsg(b) + [] == SerializeMsg(b);
  }

  /** A serialized message is parsed back unchanged. */
  lemma RoundTrip(m: MgwMsg)
    requires MsgFits(m)
    ensures ParseMsg(NotSet, SerializeMsg(m)) == Ok(m)
  {
    ParseIsMerge(NotSet, m, []);
    MergeIntoEmpty(m);
    assert SerializeMsg(m) + [] == SerializeMsg(m);
  }

  lemma MergeIntoEmpty(m: MgwMsg)
    ensures MergeMsg(NotSet, m) == m
  {
  }
}
