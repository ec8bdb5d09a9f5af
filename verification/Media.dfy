/** Values shared by the media modules: bytes, frames and unsigned 32-bit arithmetic. */
module Media {

  type byte = x: int | 0 <= x < 256

  const TWO_TO_THE_32: nat := 0x1_0000_0000
  const TWO_TO_THE_64: nat := 0x1_0000_0000_0000_0000

  /** The frame type of a video key frame (frame_t's FRAME_I). */
  const FRAME_I := 0
  const FRAME_P := 2
  const FRAME_AAC := 7

  /** One encoded frame, as a writer hands it in and a reader gets it back. */
  datatype Frame = Frame(bytes: seq<byte>, ts: nat, kind: int, priority: int)

  /** Assignment to an `unsigned int`: keep the low 32 bits, also of a negative difference. */
  function Wrap32(x: int): nat {
    x % TWO_TO_THE_32
  }

  /** Assignment to an `unsigned long long`. */
  function Wrap64(x: int): nat {
    x % TWO_TO_THE_64
  }

  /** `s` without the element at `i`. */
  function Without<T>(s: seq<T>, i: nat): (r: seq<T>)
    requires i < |s|
    ensures |r| == |s| - 1
    ensures forall j :: 0 <= j < |r| ==> r[j] == s[if j < i then j else j + 1]
  {
    s[..i] + s[i + 1..]
  }

  lemma WithoutMultiset<T>(s: seq<T>, i: nat)
    requires i < |s|
    ensures multiset(s) == multiset(Without(s, i)) + multiset{s[i]}
  {
    assert s == s[..i] + [s[i]] + s[i + 1..];
  }

  lemma MultisetCancel<T>(a: multiset<T>, b: multiset<T>, x: T)
    requires a + multiset{x} == b + multiset{x}
    ensures a == b
  {
    assert a == (a + multiset{x}) - multiset{x} && b == (b + multiset{x}) - multiset{x};
  }

  lemma InsertMultiset<T>(s: seq<T>, i: nat, x: T)
    requires i <= |s|
    ensures multiset(s[..i] + [x] + s[i..]) == multiset(s) + multiset{x}
  {
    assert s == s[..i] + s[i..];
  }

  /** All pieces, one behind the other. */
  function Concat<T>(pieces: seq<seq<T>>): seq<T> {
    if pieces == [] then [] else pieces[0] + Concat(pieces[1..])
  }

  lemma {:induction false} ConcatAppend<T>(a: seq<seq<T>>, b: seq<seq<T>>)
    ensures Concat(a + b) == Concat(a) + Concat(b)
    decreases |a|
  {
    if a == [] {
      assert a + b == b;
    } else {
      ConcatAppend(a[1..], b);
      assert (a + b)[1..] == a[1..] + b;
    }
  }

  lemma ConcatSnoc<T>(a: seq<seq<T>>, x: seq<T>)
    ensures Concat(a + [x]) == Concat(a) + x
  {
    ConcatAppend(a, [x]);
    assert Concat([x]) == x;
  }

  /** Piece `i` starts where the pieces before it end. */
  lemma ConcatSlice<T>(a: seq<seq<T>>, i: nat)
    requires i < |a|
    ensures var p := |Concat(a[..i])|; p + |a[i]| <= |Concat(a)| && Concat(a)[p..p + |a[i]|] == a[i]
  {
    assert a == a[..i] + a[i..];
    ConcatAppend(a[..i], a[i..]);
  }

  /** `len` bytes from `pos`, continued at the start of the buffer past its end. */
  function Read(data: seq<byte>, pos: nat, len: nat): seq<byte> {
    if pos + len <= |data| then data[pos..pos + len]
    else if pos <= |data| && pos + len - |data| <= |data| then data[pos..] + data[..pos + len - |data|]
    else []
  }

  /** `bytes` written at `pos`, continued at the start of the buffer past its end. */
  function Write(data: seq<byte>, pos: nat, bytes: seq<byte>): (r: seq<byte>)
    ensures |r| == |data|
  {
    if pos + |bytes| <= |data| then data[..pos] + bytes + data[pos + |bytes|..]
    else if pos <= |data| && |bytes| <= |data| then
      bytes[|data| - pos..] + data[|bytes| - (|data| - pos)..pos] + bytes[..|data| - pos]
    else data
  }

  /** Going `n` bytes round a buffer of `size` bytes, less than once. */
  function Around(pos: int, n: int, size: int): int {
    if pos + n < size then pos + n else pos + n - size
  }

  lemma ReadAt(data: seq<byte>, pos: nat, len: nat, i: nat)
    requires pos < |data| && len <= |data| && i < len
    ensures |Read(data, pos, len)| == len && Read(data, pos, len)[i] == data[Around(pos, i, |data|)]
  {
  }

  lemma WriteAt(data: seq<byte>, pos: nat, bytes: seq<byte>, i: nat)
    requires pos < |data| && |bytes| <= |data| && i < |data|
    ensures Write(data, pos, bytes)[Around(pos, i, |data|)] == if i < |bytes| then bytes[i] else data[Around(pos, i, |data|)]
  {
  }

  lemma ReadWritten(data: seq<byte>, pos: nat, bytes: seq<byte>)
    requires pos < |data| && |bytes| <= |data|
    ensures Read(Write(data, pos, bytes), pos, |bytes|) == bytes
  {
    var d := Write(data, pos, bytes);
    forall i | 0 <= i < |bytes|
      ensures |Read(d, pos, |bytes|)| == |bytes| && Read(d, pos, |bytes|)[i] == bytes[i]
    {
      ReadAt(d, pos, |bytes|, i);
      WriteAt(data, pos, bytes, i);
    }
    assert |bytes| == 0 ==> Read(d, pos, 0) == [];
  }

  /** A write of fewer bytes than lie between the end of `len` bytes and their start,
      going round, leaves those bytes alone. */
  lemma ReadElsewhere(data: seq<byte>, pos: nat, len: nat, gap: nat, bytes: seq<byte>)
    requires pos < |data| && len <= gap && gap + |bytes| <= |data|
    ensures Read(Write(data, Around(pos, gap, |data|), bytes), pos, len) == Read(data, pos, len)
  {
    var at := Around(pos, gap, |data|);
    var d := Write(data, at, bytes);
    forall i | 0 <= i < len
      ensures |Read(d, pos, len)| == len == |Read(data, pos, len)| && Read(d, pos, len)[i] == Read(data, pos, len)[i]
    {
      ReadAt(d, pos, len, i);
      ReadAt(data, pos, len, i);
      if |bytes| > 0 {
        WriteAt(data, at, bytes, |data| - gap + i);
      }
    }
  }
}
