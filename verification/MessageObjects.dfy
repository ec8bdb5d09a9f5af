/** The control messages as the mutable objects of mgw.pb.cc, against Messages. */
module MessageObjects {
  import opened Media
  import opened Wire
  import M = Messages

  /** How a parse loop ended; after anything but `Done` the message is half parsed. */
  datatype Status = Done | Failed | NotModelled

  function StatusOf<T>(p: Parsed<T>): Status {
    match p
    case Ok(_) => Done
    case Malformed => Failed
    case Unknown => NotModelled
  }

  class Device {
    var kind: seq<byte>
    var sn: seq<byte>
    var token: seq<byte>

    constructor ()
      ensures Value() == M.NoDevice
    {
      kind, sn, token := [], [], [];
    }

    ghost function Value(): M.Device
      reads this
    {
      M.Device(kind, sn, token)
    }

    method MergeFrom(from: Device)
      requires from != this
      modifies this
      ensures Value() == M.MergeDevice(old(Value()), from.Value())
    {
      if |from.kind| > 0 {
        kind := from.kind;
      }
      if |from.sn| > 0 {
        sn := from.sn;
      }
      if |from.token| > 0 {
        token := from.token;
      }
    }

    method InternalParse(bs: seq<byte>) returns (status: Status)
      modifies this
      ensures var p := M.ParseDevice(old(Value()), bs); status == StatusOf(p) && (p.Ok? ==> Value() == p.value)
    {
      var rest := bs;
      while rest != []
        invariant M.ParseDevice(old(Value()), bs) == M.ParseDevice(Value(), rest)
        decreases |rest|
      {
        var next := NextField(rest);
        if next.Bad? {
          return Failed;
        }
        if next.Foreign? || next.field.Varint? {
          return NotModelled;
        }
        var tag := next.field.tag;
        if tag == 10 {
          kind := next.field.bytes;
        } else if tag == 18 {
          sn := next.field.bytes;
        } else if tag == 26 {
          token := next.field.bytes;
        } else {
          return NotModelled;
        }
        rest := next.rest;
      }
      status := Done;
    }
  }

  class Stream {
    var enable: bool
    var srcChannel: int32
    var outChannel: int32
    var uri: seq<byte>
    var code: seq<byte>
    var username: seq<byte>
    var password: seq<byte>

    constructor ()
      ensures Value() == M.NoStream
    {
      enable, srcChannel, outChannel := false, 0, 0;
      uri, code, username, password := [], [], [], [];
    }

    ghost function Value(): M.Stream
      reads this
    {
      M.Stream(enable, srcChannel, outChannel, uri, code, username, password)
    }

    method MergeStrings(from: Stream)
      requires from != this
      modifies this`uri, this`code, this`username, this`password
      ensures var v, w := old(Value()), from.Value();
              Value() == v.(uri := M.Newer(v.uri, w.uri), code := M.Newer(v.code, w.code),
                            username := M.Newer(v.username, w.username), password := M.Newer(v.password, w.password))
    {
      if |from.uri| > 0 {
        uri := from.uri;
      }
      if |from.code| > 0 {
        code := from.code;
      }
      if |from.username| > 0 {
        username := from.username;
      }
      if |from.password| > 0 {
        password := from.password;
      }
    }

    method MergeFrom(from: Stream)
      requires from != this
      modifies this
      ensures Value() == M.MergeStream(old(Value()), from.Value())
    {
      MergeStrings(from);
      if from.enable {
        enable := from.enable;
      }
      if from.srcChannel != 0 {
        srcChannel := from.srcChannel;
      }
      if from.outChannel != 0 {
        outChannel := from.outChannel;
      }
    }

    method InternalParse(bs: seq<byte>) returns (status: Status)
      modifies this
      ensures var p := M.ParseStream(old(Value()), bs); status == StatusOf(p) && (p.Ok? ==> Value() == p.value)
    {
      hide NextField;
      var rest := bs;
      while rest != []
        invariant M.ParseStream(old(Value()), bs) == M.ParseStream(Value(), rest)
        decreases |rest|
      {
        var next := NextField(rest);
        if next.Bad? {
          return Failed;
        }
        if next.Foreign? {
          return NotModelled;
        }
        ghost var applied := M.ApplyStream(Value(), next.field);
        var known := Assign(next.field);
        if !known {
          return NotModelled;
        }
        rest := next.rest;
      }
      status := Done;
    }

    /** The switch on the field number. */
    method Assign(f: Field) returns (known: bool)
      modifies this
      ensures var p := M.ApplyStream(old(Value()), f); if known then p == Ok(Value()) else p == Unknown
    {
      known := true;
      match f {
        case Varint(tag, v) =>
          if tag == 8 {
            enable := v != 0;
          } else if tag == 16 {
            srcChannel := ToInt32(v);
          } else if tag == 24 {
            outChannel := ToInt32(v);
          } else {
            known := false;
          }
        case Bytes(tag, b) =>
          if tag == 34 {
            uri := b;
          } else if tag == 42 {
            code := b;
          } else if tag == 50 {
            username := b;
          } else if tag == 58 {
            password := b;
          } else {
            known := false;
          }
      }
    }
  }

  /** Owns its submessages; a null pointer is an absent one. */
  class StartStream {
    var device: Device?
    var stream: Stream?

    ghost function Repr(): set<object>
      reads this
    {
      {this} + (if device == null then {} else {device}) + (if stream == null then {} else {stream})
    }

    constructor ()
      ensures Value() == M.NoStart && fresh(Repr())
    {
      device, stream := null, null;
    }

    ghost function Value(): M.StartStream
      reads this, device, stream
    {
      M.StartStream(if device == null then None else Some(device.Value()), if stream == null then None else Some(stream.Value()))
    }

    method MutableDevice() returns (d: Device)
      modifies this`device
      ensures device == d && (d == old(device) || fresh(d))
      ensures d.Value() == M.MutableDevice(old(Value()))
    {
      if device == null {
        device := new Device();
      }
      d := device;
    }

    method MutableStream() returns (s: Stream)
      modifies this`stream
      ensures stream == s && (s == old(stream) || fresh(s))
      ensures s.Value() == M.MutableStream(old(Value()))
    {
      if stream == null {
        stream := new Stream();
      }
      s := stream;
    }

    method MergeFrom(from: StartStream)
      requires from.Repr() !! Repr()
      modifies Repr()
      ensures Value() == M.MergeStart(old(Value()), old(from.Value()))
      ensures fresh(Repr() - old(Repr()))
    {
      if from.device != null {
        var d := MutableDevice();
        d.MergeFrom(from.device);
      }
      if from.stream != null {
        var s := MutableStream();
        s.MergeFrom(from.stream);
      }
    }

    method InternalParse(bs: seq<byte>) returns (status: Status)
      modifies Repr()
      ensures var p := M.ParseStart(old(Value()), bs); status == StatusOf(p) && (p.Ok? ==> Value() == p.value)
      ensures fresh(Repr() - old(Repr()))
    {
      hide NextField, M.ParseDevice, M.ParseStream;
      var rest := bs;
      while rest != []
        invariant M.ParseStart(old(Value()), bs) == M.ParseStart(Value(), rest)
        invariant fresh(Repr() - old(Repr()))
        decreases |rest|
      {
        var next := NextField(rest);
        if next.Bad? {
          return Failed;
        }
        if next.Foreign? {
          return NotModelled;
        }
        var sub := ParseField(next.field);
        if sub != Done {
          return sub;
        }
        rest := next.rest;
      }
      status := Done;
    }

    /** The switch on the field number, with the submessage's own loop. */
    method ParseField(f: Field) returns (status: Status)
      modifies Repr()
      ensures var p := M.ApplyStart(old(Value()), f); status == StatusOf(p) && (p.Ok? ==> Value() == p.value)
      ensures fresh(Repr() - old(Repr()))
    {
      hide M.ParseDevice, M.ParseStream;
      if f.Varint? {
        return NotModelled;
      }
      if f.tag == 10 {
        var d := MutableDevice();
        status := d.InternalParse(f.bytes);
      } else if f.tag == 18 {
        var s := MutableStream();
        status := s.InternalParse(f.bytes);
      } else {
        status := NotModelled;
      }
    }
  }

  datatype Case = MESSAGE_NOT_SET | START_STREAM | RESULT | STREAM_INFO

  /** The union and its tag; the pointer means something in one case only. */
  class MgwMsg {
    var oneofCase: Case
    var start: StartStream?

    ghost predicate Valid()
      reads this
    {
      oneofCase == START_STREAM ==> start != null
    }

    ghost function Repr(): set<object>
      reads this, start
      requires Valid()
    {
      {this} + (if oneofCase == START_STREAM then start.Repr() else {})
    }

    constructor ()
      ensures Valid() && Value() == M.NotSet
    {
      oneofCase, start := MESSAGE_NOT_SET, null;
    }

    ghost function Value(): M.MgwMsg
      requires Valid()
      reads this, start, if start == null then {} else start.Repr()
    {
      match oneofCase
      case MESSAGE_NOT_SET => M.NotSet
      case START_STREAM => M.Start(start.Value())
      case RESULT => M.Result
      case STREAM_INFO => M.Info
    }

    /** clear_message: the old case is dropped, whatever it was. */
    method ClearMessage()
      modifies this
      ensures Valid() && Value() == M.NotSet && Repr() == {this}
    {
      oneofCase, start := MESSAGE_NOT_SET, null;
    }

    /** The submessage of this case, after clearing any other. */
    method MutableStart() returns (s: StartStream)
      requires Valid()
      modifies this
      ensures Valid() && oneofCase == START_STREAM && start == s
      ensures s.Value() == M.MutableStart(old(Value()))
      ensures fresh(s.Repr()) || (old(oneofCase) == START_STREAM && s == old(start) && s.Repr() == old(start.Repr()))
      ensures s.Repr() !! {this}
    {
      if oneofCase != START_STREAM {
        ClearMessage();
        oneofCase := START_STREAM;
        start := new StartStream();
      }
      s := start;
    }

    method MutableEmpty(c: Case)
      requires c == RESULT || c == STREAM_INFO
      modifies this
      ensures Valid() && oneofCase == c && Value() == (if c == RESULT then M.Result else M.Info)
    {
      if oneofCase != c {
        ClearMessage();
        oneofCase := c;
      }
    }

    method MergeFrom(from: MgwMsg)
      requires Valid() && from.Valid() && from.Repr() !! Repr()
      modifies Repr()
      ensures Valid() && Value() == M.MergeMsg(old(Value()), old(from.Value()))
      ensures fresh(Repr() - old(Repr())) && from.Repr() !! Repr()
    {
      match from.oneofCase {
        case MESSAGE_NOT_SET =>
        case START_STREAM =>
          var s := MutableStart();
          s.MergeFrom(from.start);
        case RESULT =>
          MutableEmpty(RESULT);
        case STREAM_INFO =>
          MutableEmpty(STREAM_INFO);
      }
    }

    method InternalParse(bs: seq<byte>) returns (status: Status)
      requires Valid()
      modifies Repr()
      ensures Valid() && fresh(Repr() - old(Repr()))
      ensures var p := M.ParseMsg(old(Value()), bs); status == StatusOf(p) && (p.Ok? ==> Value() == p.value)
    {
      hide NextField, M.ApplyMsg;
      var rest := bs;
      while rest != []
        invariant Valid() && fresh(Repr() - old(Repr()))
        invariant M.ParseMsg(old(Value()), bs) == M.ParseMsg(Value(), rest)
        decreases |rest|
      {
        var next := NextField(rest);
        if next.Bad? {
          return Failed;
        }
        if next.Foreign? {
          return NotModelled;
        }
        var sub := ParseField(next.field);
        if sub != Done {
          return sub;
        }
        rest := next.rest;
      }
      status := Done;
    }

    method ParseField(f: Field) returns (status: Status)
      requires Valid()
      modifies Repr()
      ensures Valid() && fresh(Repr() - old(Repr()))
      ensures var p := M.ApplyMsg(old(Value()), f); status == StatusOf(p) && (p.Ok? ==> Value() == p.value)
    {
      hide M.ParseStart, Parse;
      if f.Varint? {
        return NotModelled;
      }
      if f.tag == 162 {
        var s := MutableStart();
        status := s.InternalParse(f.bytes);
      } else if f.tag == 170 {
        MutableEmpty(RESULT);
        status := StatusOf(Parse((), f.bytes, M.ApplyNothing));
      } else if f.tag == 178 {
        MutableEmpty(STREAM_INFO);
        status := StatusOf(Parse((), f.bytes, M.ApplyNothing));
      } else {
        status := NotModelled;
      }
    }
  }
}
