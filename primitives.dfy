/// What the library's own `Encodable` implementations write: `u8`, `i8`,
/// `bool`, `char`, references and boxes, byte slices, `str`, `CStr`, tuples,
/// `Option` and `Result` (`src/encodables/`, `src/impls/`).
module Primitives {
  import opened Utf8
  import opened Errors
  import opened FixedInts
  import opened Encoding
  import opened Encodables

  /// An encoding that is one write succeeds with that write's bytes.
  lemma EncodedOfEmit(e: Encodable, c: Chunk)
    requires Writes(e) == Emit(c)
    ensures Encoded(e) == Ok(ChunkBytes(c))
  {
    assert [c][1..] == [];
    assert Output([c]) == ChunkBytes(c) + Output([]);
    assert Output([c]) == ChunkBytes(c);
  }

  /// A `u8` is one `put_byte` of itself; `u8::MAX` gives 0xFF.
  lemma ByteEncoding(b: u8)
    ensures Writes(Byte(b)) == Emit(Raw([b]))
    ensures Encoded(Byte(b)) == Ok([b])
    ensures Encoded(Byte(0xFF)) == Ok([0xFF])
  {
    EncodedOfEmit(Byte(b), Raw([b]));
    EncodedOfEmit(Byte(0xFF), Raw([0xFF]));
  }

  /// An `i8` is written as its two's-complement bit pattern (`*self as u8`);
  /// `i8::MIN` gives 0x80.
  lemma SignedByteEncoding(v: i8)
    ensures Encoded(SignedByte(v)) == Ok([ByteOf(v)])
    ensures ByteOf(v) as int == v as int % 256
    ensures Encoded(SignedByte(-128)) == Ok([0x80])
  {
    EncodedOfEmit(SignedByte(v), Raw([ByteOf(v)]));
    EncodedOfEmit(SignedByte(-128), Raw([ByteOf(-128)]));
  }

  /// `bool` writes 0x01 for true and 0x00 for false.
  lemma BooleanEncoding(b: bool)
    ensures Encoded(Boolean(b)) == Ok(if b then [1] else [0])
  {
    EncodedOfEmit(Boolean(b), Raw([BoolByte(b)]));
  }

  /// A `char` writes its one to four UTF-8 bytes, as one `put_str`; `'a'`
  /// gives "a".
  lemma CharacterEncoding(c: char)
    ensures Writes(Character(c)) == Emit(Text([c]))
    ensures Encoded(Character(c)) == Ok(EncodeChar(c))
    ensures 1 <= |Encoded(Character(c)).value| <= 4
    ensures WellFormed(Encoded(Character(c)).value)
    ensures Encoded(Character('a')) == Ok([0x61])
  {
    assert [c][1..] == [];
    assert Utf8.Encode([c]) == EncodeChar(c);
    EncodedOfEmit(Character(c), Text([c]));
    EncodeValid([c]);
    assert ['a'][1..] == [];
    assert Utf8.Encode(['a']) == EncodeChar('a');
    EncodedOfEmit(Character('a'), Text(['a']));
  }

  /// `&T`, `Box<T>` and `Cow<T>`, borrowed or owned, encode exactly as `T`,
  /// with `T`'s error.
  lemma RefEncoding(k: RefKind, e: Encodable)
    ensures Writes(Ref(k, e)) == Writes(e)
    ensures Encoded(Ref(k, e)) == Encoded(e)
  {
  }

  /// A byte slice (also `[u8; N]` and `Vec<u8>`) is one `put_slice` of itself.
  lemma BytesEncoding(b: seq<u8>)
    ensures Writes(Bytes(b)) == Emit(Raw(b))
    ensures Encoded(Bytes(b)) == Ok(b)
  {
    EncodedOfEmit(Bytes(b), Raw(b));
  }

  /// A `str` (also `String`) is one `put_str`: a byte encoder receives its
  /// UTF-8 bytes, a `String` encoder its text.
  lemma StrEncoding(s: string)
    ensures Writes(Str(s)) == Emit(Text(s))
    ensures Encoded(Str(s)) == Ok(Utf8.Encode(s))
    ensures forall x: string :: Run(TextSink(x), Writes(Str(s))) == Step(TextSink(x + s), Pass)
  {
    EncodedOfEmit(Str(s), Text(s));
    forall x: string
      ensures Run(TextSink(x), Writes(Str(s))) == Step(TextSink(x + s), Pass)
    {
      RunText(x, Writes(Str(s)));
      assert TextOutput([Text(s)]) == s + TextOutput([]);
    }
  }

  /// A `CStr` (also `CString`) writes its bytes and then its nul terminator,
  /// which is the only zero byte written.
  lemma CStrEncoding(b: CStrBytes)
    ensures Encoded(CStr(b)) == Ok(b + [0])
    ensures var out := Encoded(CStr(b)).value;
      out[|out| - 1] == 0 && forall i :: 0 <= i < |out| - 1 ==> out[i] != 0
  {
    EncodedOfEmit(CStr(b), Raw(b + [0]));
  }

  /// Writing text into a byte encoder is writing its UTF-8 bytes: the older
  /// revision's `char` and `String`, which call `put_slice` on those bytes
  /// (`src/impls/primitives.rs:8-12`, `src/impls/std_alloc.rs:49-56`),
  /// leave every byte encoder exactly as `put_str` does.
  lemma TextAsBytes(s: Sink, x: string)
    requires SinkValid(s) && !s.TextSink?
    ensures Put(s, Text(x)) == Put(s, Raw(Utf8.Encode(x)))
  {
  }

  /// The slice tests (`src/impls/slices.rs:61-115`): `[1, 2, 3]`,
  /// `"Hello world!"` and `c"Hello world!"` write exactly those bytes, the
  /// last one followed by its terminator.
  lemma BytesExample()
    ensures Encoded(Bytes([1, 2, 3])) == Ok([1, 2, 3])
  {
    BytesEncoding([1, 2, 3]);
  }

  lemma StrExample()
    ensures IsAscii(HelloWorld)
    ensures Encoded(Str(HelloWorld)) == Ok(Ascii(HelloWorld))
    ensures |Encoded(Str(HelloWorld)).value| == 12
  {
    StrEncoding(HelloWorld);
    HelloWorldIsAscii();
    EncodeAscii(HelloWorld);
  }

  lemma CStrExample()
    ensures IsAscii(HelloWorld)
    ensures Encoded(CStr(Ascii(HelloWorld))) == Ok(Ascii(HelloWorld) + [0])
  {
    HelloWorldIsAscii();
    CStrEncoding(Ascii(HelloWorld));
  }

  const HelloWorld: string := "Hello world!"

  lemma HelloWorldIsAscii()
    ensures IsAscii(HelloWorld)
    ensures forall i :: 0 <= i < |Ascii(HelloWorld)| ==> Ascii(HelloWorld)[i] != 0
  {
  }

  // ---- Tuples -------------------------------------------------------------

  /// Every item encodes successfully on its own.
  predicate AllOk(items: seq<Encodable>)
  {
    forall i :: 0 <= i < |items| ==> Encoded(items[i]).Ok?
  }

  /// The bytes of each item.
  function Outputs(items: seq<Encodable>): (outs: seq<seq<u8>>)
    requires AllOk(items)
    ensures |outs| == |items|
  {
    seq(|items|, i requires 0 <= i < |items| => Encoded(items[i]).value)
  }

  /// The bytes of the items after the first.
  lemma OutputsTail(items: seq<Encodable>)
    requires AllOk(items) && items != []
    ensures AllOk(items[1..]) && Outputs(items[1..]) == Outputs(items)[1..]
  {
    var tail := items[1..];
    assert forall i :: 0 <= i < |tail| ==> tail[i] == items[i + 1];
    assert AllOk(tail);
    var outs := Outputs(items);
    forall i | 0 <= i < |tail|
      ensures Outputs(tail)[i] == outs[1..][i]
    {
      assert outs[1..][i] == outs[i + 1] == Encoded(items[i + 1]).value;
    }
  }

  /// Byte strings one after another.
  function Concat(xs: seq<seq<u8>>): seq<u8>
  {
    if xs == [] then [] else xs[0] + Concat(xs[1..])
  }

  /// A tuple whose members all succeed writes their encodings one after
  /// another, left to right (`src/impls/tuples.rs:17-21`).
  lemma {:induction false} TupleConcatenates(items: seq<Encodable>)
    requires AllOk(items)
    ensures Encoded(Tuple(items)) == Ok(Concat(Outputs(items)))
  {
    AllConcatenates(items);
  }

  lemma {:induction false} AllConcatenates(items: seq<Encodable>)
    requires AllOk(items)
    ensures WritesAll(items).stop == Pass
    ensures Output(WritesAll(items).chunks) == Concat(Outputs(items))
  {
    if items != [] {
      OutputsTail(items);
      AllConcatenates(items[1..]);
      OutputAppend(Writes(items[0]).chunks, WritesAll(items[1..]).chunks);
    }
  }

  /// The first member that fails decides the tuple's error, and nothing is
  /// written after it: the writes are those of the members before it and its
  /// own (`src/impls/tuples.rs:19-20`).
  lemma {:induction false} TupleStopsAtFirstError(items: seq<Encodable>, k: nat)
    requires k < |items| && AllOk(items[..k]) && Encoded(items[k]).Err?
    ensures Encoded(Tuple(items)) == Encoded(items[k])
    ensures WritesAll(items).chunks == WritesAll(items[..k]).chunks + Writes(items[k]).chunks
  {
    AllStopsAtFirstError(items, k);
  }

  lemma {:induction false} AllStopsAtFirstError(items: seq<Encodable>, k: nat)
    requires k < |items| && AllOk(items[..k]) && Encoded(items[k]).Err?
    ensures WritesAll(items).stop == Writes(items[k]).stop
    ensures WritesAll(items).chunks == WritesAll(items[..k]).chunks + Writes(items[k]).chunks
  {
    if k == 0 {
      assert items[..0] == [];
    } else {
      assert items[1..][..k - 1] == items[..k][1..];
      assert Encoded(items[..k][0]).Ok?;
      AllStopsAtFirstError(items[1..], k - 1);
      assert items[..k][1..] == items[1..][..k - 1];
    }
  }

  /// `()` writes nothing and succeeds.
  lemma UnitWritesNothing()
    ensures Writes(Tuple([])) == Done()
  {
  }

  /// `("hello", "world")` encodes into `()` successfully
  /// (`src/impls/tuples.rs:69-73`).
  lemma TupleIntoUnit()
    ensures Run(UnitSink, Writes(Tuple([Str("hello"), Str("world")]))).outcome == Pass
  {
    var items := [Str("hello"), Str("world")];
    assert items[1..][1..] == [];
    RunUnit(Writes(Tuple(items)));
  }

  // ---- Option and Result ---------------------------------------------------

  /// `None` writes nothing and succeeds; `Some(v)` encodes exactly as `v`.
  lemma OptionEncoding(o: Option<Encodable>)
    ensures o.None? ==> Writes(Opt(o)) == Done()
    ensures o.Some? ==> Writes(Opt(o)) == Writes(o.value)
  {
  }

  /// `Ok(v)` encodes exactly as `v`; `Err(e)` returns `e` without touching
  /// the encoder.
  lemma ResultEncoding(r: Result<Encodable>, s: Sink)
    requires SinkValid(s)
    ensures r.Ok? ==> Writes(Res(r)) == Writes(r.value)
    ensures r.Err? ==> Run(s, Writes(Res(r))) == Step(s, Fail(r.error))
  {
  }
}
