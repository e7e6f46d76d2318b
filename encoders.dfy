/// The encoders in scope, as classes whose fields change in place, and a
/// dispatch over them standing for Rust's `E: ByteEncoder` / `E: StrEncoder`
/// type parameters.
///
/// Each method is proved to move its encoder exactly as `Encoding.Put` says,
/// so everything proved about traces holds of the real encoders.
module Encoders {
  import opened Utf8
  import opened Errors
  import opened Encoding

  /// `SizeEncoder` (`src/encoders/size.rs`): counts the bytes written and
  /// cannot fail (its error type is `Infallible`).
  class SizeEncoder {
    var size: nat

    /// `SizeEncoder::new()`: the count starts at 0.
    constructor ()
      ensures size == 0
    {
      size := 0;
    }

    /// `size()`: reads the count without changing it.
    function Size(): nat
      reads this
    {
      size
    }

    /// `put_slice`: the count grows by the slice's length.
    method PutSlice(slice: seq<u8>)
      modifies this
      ensures size == old(size) + |slice|
    {
      size := size + |slice|;
    }

    /// `put_byte`: the count grows by one.
    method PutByte(byte: u8)
      modifies this
      ensures size == old(size) + 1
    {
      size := size + 1;
    }

    /// `fmt::Write::write_str`: the count grows by the string's byte length.
    method WriteStr(s: string)
      modifies this
      ensures size == old(size) + |Utf8.Encode(s)|
    {
      size := size + |Utf8.Encode(s)|;
    }
  }

  /// A `&mut [u8]` encoder (`src/encoders/slices.rs`): the window
  /// `buf[pos..end]` of a fixed buffer that shrinks from the front as bytes
  /// are written into it.
  class SliceEncoder {
    const buf: array<u8>
    var pos: nat
    var end: nat

    ghost predicate Valid()
      reads this
    {
      pos <= end <= buf.Length
    }

    /// `&mut buf[..]`: the whole buffer is available.
    constructor (a: array<u8>)
      ensures buf == a && pos == 0 && end == a.Length && Valid()
    {
      buf := a;
      pos := 0;
      end := a.Length;
    }

    /// `len()`: the room left in the window.
    function Remaining(): nat
      reads this
      requires Valid()
    {
      end - pos
    }

    /// `put_slice`: `mem::take` empties the window, `split_at_mut_checked`
    /// fails with `InsufficientSpace` if the slice is longer than it was, and
    /// otherwise `copy_from_slice` fills its front and the rest becomes the
    /// new window.
    method PutSlice(slice: seq<u8>) returns (r: Outcome)
      requires Valid()
      modifies this, buf
      ensures Valid()
      ensures Step(WindowSink(buf[..], pos, end), r) ==
        Put(WindowSink(old(buf[..]), old(pos), old(end)), Raw(slice))
      ensures old(|slice| <= end - pos) ==>
        r == Pass && pos == old(pos) + |slice| && buf[old(pos)..pos] == slice
      ensures old(|slice| > end - pos) ==>
        r == Fail(InsufficientSpace) && pos == end && buf[..] == old(buf[..])
      ensures forall i :: 0 <= i < buf.Length && !(old(pos) <= i < old(pos) + |slice|) ==>
        buf[i] == old(buf[i])
    {
      var start := pos;
      pos := end;
      if |slice| > end - start {
        return Fail(InsufficientSpace);
      }
      forall i | 0 <= i < |slice| {
        buf[start + i] := slice[i];
      }
      assert buf[..] == Spliced(old(buf[..]), start, slice);
      pos := start + |slice|;
      r := Pass;
    }

    /// `put_byte`: `put_slice` of the one-byte slice.
    method PutByte(byte: u8) returns (r: Outcome)
      requires Valid()
      modifies this, buf
      ensures Valid()
      ensures Step(WindowSink(buf[..], pos, end), r) ==
        Put(WindowSink(old(buf[..]), old(pos), old(end)), Raw([byte]))
    {
      r := PutSlice([byte]);
    }
  }

  /// A `Vec<u8>` encoder (`src/encoders/alloc.rs:7-23`): grows as needed and
  /// cannot fail.
  class VecEncoder {
    var contents: seq<u8>

    /// `Vec::with_capacity(capacity)`: the capacity is only a hint.
    constructor (capacity: nat)
      ensures contents == []
    {
      contents := [];
    }

    /// `put_slice`: `extend`.
    method PutSlice(slice: seq<u8>)
      modifies this
      ensures contents == old(contents) + slice
    {
      contents := contents + slice;
    }

    /// `put_byte`: `push`.
    method PutByte(byte: u8)
      modifies this
      ensures contents == old(contents) + [byte]
    {
      contents := contents + [byte];
    }
  }

  /// A `String` encoder (`src/encoders/alloc.rs:25-35`): a text-only sink
  /// that grows as needed and cannot fail.
  class StringEncoder {
    var text: string

    /// `String::with_capacity(capacity)`.
    constructor (capacity: nat)
      ensures text == []
    {
      text := [];
    }

    /// `put_str`: `push_str`.
    method PutStr(s: string)
      modifies this
      ensures text == old(text) + s
    {
      text := text + s;
    }
  }

  /// The encoder an encoding writes into. `ToUnit` is `()`
  /// (`src/encoders/primitives.rs`), which has no state at all.
  datatype Dest =
    | ToSize(size: SizeEncoder)
    | ToSlice(slice: SliceEncoder)
    | ToVec(vec: VecEncoder)
    | ToString(str: StringEncoder)
    | ToUnit

  /// The objects an encoder's state lives in.
  ghost function Repr(d: Dest): set<object>
  {
    match d
    case ToSize(e) => {e}
    case ToSlice(e) => {e, e.buf}
    case ToVec(e) => {e}
    case ToString(e) => {e}
    case ToUnit => {}
  }

  ghost predicate Valid(d: Dest)
    reads Repr(d)
  {
    d.ToSlice? ==> d.slice.Valid()
  }

  /// The observable state of an encoder.
  function State(d: Dest): (s: Sink)
    reads Repr(d)
    requires Valid(d)
    ensures SinkValid(s) && s.TextSink? == d.ToString?
  {
    match d
    case ToSize(e) => SizeSink(e.size)
    case ToSlice(e) => WindowSink(e.buf[..], e.pos, e.end)
    case ToVec(e) => VecSink(e.contents)
    case ToString(e) => TextSink(e.text)
    case ToUnit => UnitSink
  }

  /// `ByteEncoder::put_slice` on any byte encoder.
  method PutSlice(d: Dest, slice: seq<u8>) returns (r: Outcome)
    requires Valid(d) && !d.ToString?
    modifies Repr(d)
    ensures Valid(d)
    ensures Step(State(d), r) == Put(old(State(d)), Raw(slice))
  {
    match d
    case ToSize(e) =>
      e.PutSlice(slice);
      r := Pass;
    case ToSlice(e) =>
      r := e.PutSlice(slice);
    case ToVec(e) =>
      e.PutSlice(slice);
      r := Pass;
    case ToUnit =>
      r := Pass;
  }

  /// `ByteEncoder::put_byte` on any byte encoder.
  method PutByte(d: Dest, byte: u8) returns (r: Outcome)
    requires Valid(d) && !d.ToString?
    modifies Repr(d)
    ensures Valid(d)
    ensures Step(State(d), r) == Put(old(State(d)), Raw([byte]))
  {
    match d
    case ToSize(e) =>
      e.PutByte(byte);
      r := Pass;
    case ToSlice(e) =>
      r := e.PutByte(byte);
    case ToVec(e) =>
      e.PutByte(byte);
      r := Pass;
    case ToUnit =>
      r := Pass;
  }

  /// `StrEncoder::put_str`: `String` appends the text; every byte encoder
  /// gets the blanket implementation, which writes the string's UTF-8 bytes
  /// as one slice (`src/lib.rs:164-172`).
  method PutStr(d: Dest, s: string) returns (r: Outcome)
    requires Valid(d)
    modifies Repr(d)
    ensures Valid(d)
    ensures Step(State(d), r) == Put(old(State(d)), Text(s))
  {
    if d.ToString? {
      d.str.PutStr(s);
      r := Pass;
    } else {
      r := PutSlice(d, Utf8.Encode(s));
    }
  }
}
