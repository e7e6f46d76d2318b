/// The encoders' own documented examples and tests, stated as calls on the
/// encoder classes and verified: a `SizeEncoder` counting a `CStr` and a formatted string, a
/// `&mut [u8]` window that is empty or 64 bytes long, and `Vec<u8>` and
/// `String` encoders that outgrow their initial capacity.
module SinkExamples {
  import opened Utf8
  import opened Errors
  import opened Encoding
  import opened Encoders
  import opened Encodables
  import Encode
  import opened Primitives

  const HelloWorld: string := "hello world"
  const HelloComma: string := "hello, world!"
  const Hello: string := "hello"

  lemma HelloIsAscii()
    ensures IsAscii(Hello) && Utf8.Encode(Hello) == Ascii(Hello)
  {
    assert IsAscii(Hello);
    EncodeAscii(Hello);
  }

  /// "hello world" is eleven ASCII characters, so eleven bytes.
  lemma HelloWorldLength()
    ensures |Utf8.Encode(HelloWorld)| == |HelloWorld| == 11
  {
    assert IsAscii(HelloWorld);
    EncodeAscii(HelloWorld);
  }

  /// `c"hello, world!"` without its terminator: thirteen non-zero bytes.
  lemma HelloCommaBytes()
    ensures IsAscii(HelloComma) && |Ascii(HelloComma)| == 13
    ensures forall i :: 0 <= i < |Ascii(HelloComma)| ==> Ascii(HelloComma)[i] != 0
  {
    assert IsAscii(HelloComma);
  }

  /// The documented example of `SizeEncoder` (`src/encoders/size.rs:23-26`):
  /// `c"hello, world!"` encoded into a fresh `SizeEncoder` leaves its count
  /// at 14, thirteen characters and the terminator.
  method SizeOfCStr() returns (size: nat)
    ensures size == 14
  {
    HelloCommaBytes();
    var text: CStrBytes := Ascii(HelloComma);
    var counter := new SizeEncoder();
    var r := Encode.Encode(CStr(text), ToSize(counter));
    RunSize(0, Writes(CStr(text)));
    CStrEncoding(text);
    RunVec([], Writes(CStr(text)));
    size := counter.Size();
  }

  /// `write!(size_encoder, "{s}")` with `s = "hello world"` counts
  /// `s.len()` bytes (`src/encoders/size.rs:84-89`).
  method WriteStrCount() returns (size: nat)
    ensures size == |HelloWorld| == 11
  {
    var counter := new SizeEncoder();
    counter.WriteStr(HelloWorld);
    HelloWorldLength();
    size := counter.Size();
  }

  /// `"hello"` into an empty `&mut [u8]` fails with `InsufficientSpace`
  /// (`src/encoders/slices.rs:31-38`).
  method EmptySliceFails() returns (r: Outcome)
    ensures r == Fail(InsufficientSpace)
  {
    var a := new u8[0];
    var e := new SliceEncoder(a);
    HelloIsAscii();
    StrEncoding(Hello);
    WindowTooSmall(a[..], 0, 0, Writes(Str(Hello)));
    r := Encode.Encode(Str(Hello), ToSlice(e));
  }

  /// `"hello"` into a 64-byte `&mut [u8]`: five bytes are consumed and the
  /// front of the buffer holds `b"hello"` (`src/encoders/slices.rs:41-56`).
  method SliceHello() returns (r: Outcome, written: nat, front: seq<u8>)
    ensures r == Pass && written == 5 && front == Ascii(Hello)
  {
    var a := new u8[64];
    var e := new SliceEncoder(a);
    HelloIsAscii();
    StrEncoding(Hello);
    WindowLargeEnough(a[..], 0, 64, Writes(Str(Hello)));
    r := Encode.Encode(Str(Hello), ToSlice(e));
    written := 64 - e.Remaining();
    front := a[..written];
  }

  /// `b"hello"` into a `Vec` of capacity 1 gives `b"hello"`: the vector
  /// grows as needed (`src/encoders/alloc.rs:43-50`,
  /// `src/encoders/std_alloc.rs:34-39`).
  method VecGrows() returns (r: Outcome, bytes: seq<u8>)
    ensures r == Pass && bytes == Ascii(Hello)
  {
    HelloIsAscii();
    var v := new VecEncoder(1);
    r := Encode.Encode(Bytes(Ascii(Hello)), ToVec(v));
    BytesEncoding(Ascii(Hello));
    RunVec([], Writes(Bytes(Ascii(Hello))));
    bytes := v.contents;
  }

  /// `"hello"` into a `String` of capacity 1 gives `"hello"`
  /// (`src/encoders/alloc.rs:53-60`).
  method StringGrows() returns (r: Outcome, text: string)
    ensures r == Pass && text == Hello
  {
    var s := new StringEncoder(1);
    r := Encode.Encode(Str(Hello), ToString(s));
    StrEncoding(Hello);
    RunText([], Writes(Str(Hello)));
    text := s.text;
  }
}
