/// The combinators of `src/combinators/`: `LE`, `BE`, `Flags`, `Cond`,
/// `Iter`, `Separated`, `FromError` and `LengthPrefix`, each proved against
/// an independent description of the bytes it produces.
module Combinators {
  import opened Utf8
  import opened Errors
  import opened FixedInts
  import opened Flags
  import opened Encoding
  import opened Encodables
  import opened Primitives

  // ---- LE and BE -----------------------------------------------------------

  /// `LE<T>` writes `to_le_bytes`: exactly as many bytes as `T` is wide,
  /// from which `from_le_bytes` gives the number back.
  lemma LEEncoding(n: Fixed)
    ensures Encoded(LE(n)) == Ok(ToLE(n))
    ensures |Encoded(LE(n)).value| == Width(n.kind)
    ensures FromLE(n.kind, Encoded(LE(n)).value) == n
  {
    EncodedOfEmit(LE(n), Raw(ToLE(n)));
    LERoundTrip(n);
  }

  /// `BE<T>` writes `to_be_bytes`: the little-endian bytes reversed, from
  /// which `from_be_bytes` gives the number back.
  lemma BEEncoding(n: Fixed)
    ensures Encoded(BE(n)) == Ok(ToBE(n))
    ensures ToBE(n) == Reverse(ToLE(n))
    ensures FromBE(n.kind, Encoded(BE(n)).value) == n
  {
    EncodedOfEmit(BE(n), Raw(ToBE(n)));
    BEIsReversedLE(Width(n.kind), Bits(n));
    BERoundTrip(n);
  }

  /// `LE<NonZero<T>>` and `BE<NonZero<T>>` write what `LE<T>` and `BE<T>`
  /// write for the same number (`.get()`).
  lemma NonZeroEncoding(n: NonZeroFixed)
    ensures Encoded(LENonZero(n)) == Encoded(LE(n))
    ensures Encoded(BENonZero(n)) == Encoded(BE(n))
    ensures Encoded(LENonZero(n)).Ok? && Encoded(LENonZero(n)).value != LEBytes(Width(n.kind), 0)
  {
    EncodedOfEmit(LENonZero(n), Raw(ToLE(n)));
    EncodedOfEmit(LE(n), Raw(ToLE(n)));
    EncodedOfEmit(BENonZero(n), Raw(ToBE(n)));
    EncodedOfEmit(BE(n), Raw(ToBE(n)));
    NonZeroBytes(n);
  }

  /// A non-zero value's little-endian bytes are not all zero.
  lemma NonZeroBytes(n: NonZeroFixed)
    ensures ToLE(n) != LEBytes(Width(n.kind), 0)
  {
    var zero: Fixed := FixedInt(n.kind, 0);
    if ToLE(n) == LEBytes(Width(n.kind), 0) {
      LEInjective(n, zero);
    }
  }

  /// `LE::new(1u16)` writes [1, 0] and `BE::new(1u16)` writes [0, 1]
  /// (`src/combinators/le.rs:18-19`, `src/combinators/be.rs:18-19`).
  lemma EndianExamples()
    ensures Encoded(LE(FixedInt(UInt16, 1))) == Ok([1, 0])
    ensures Encoded(BE(FixedInt(UInt16, 1))) == Ok([0, 1])
  {
    FixedInts.Examples();
    LEEncoding(FixedInt(UInt16, 1));
    BEEncoding(FixedInt(UInt16, 1));
  }

  // ---- Flags ---------------------------------------------------------------

  /// `Flags` writes the one byte `u8::from` packs its flags into, the first
  /// flag in the most significant bit; different flag arrays give different
  /// bytes.
  lemma FlagsEncoding(f: FlagArray, g: FlagArray)
    ensures Encoded(FlagSet(f)) == Ok([ToByte(f)])
    ensures forall i :: 0 <= i < 8 ==> ByteBit(Encoded(FlagSet(f)).value[0], 7 - i) == f[i]
    ensures Encoded(FlagSet(f)) == Encoded(FlagSet(g)) ==> f == g
  {
    EncodedOfEmit(FlagSet(f), Raw([ToByte(f)]));
    EncodedOfEmit(FlagSet(g), Raw([ToByte(g)]));
    ToByteBits(f);
    if Encoded(FlagSet(f)) == Encoded(FlagSet(g)) {
      assert [ToByte(f)][0] == [ToByte(g)][0];
      ToByteInjective(f, g);
    }
  }

  /// The documented examples (`src/combinators/flags.rs:16-29`).
  lemma FlagsExamples()
    ensures Encoded(FlagSet([false, false, false, false, false, false, false, false])) == Ok([0])
    ensures Encoded(FlagSet([true, false, false, true, false, false, false, false])) == Ok([0x90])
  {
    Flags.Examples();
    var none: FlagArray := [false, false, false, false, false, false, false, false];
    var some: FlagArray := [true, false, false, true, false, false, false, false];
    FlagsEncoding(none, none);
    FlagsEncoding(some, some);
  }

  // ---- Cond ----------------------------------------------------------------

  /// `Cond` encodes its value when the condition holds of it, and otherwise
  /// writes nothing and succeeds, whatever the value would have done.
  lemma CondEncoding(e: Encodable, p: Pred)
    ensures Holds(p, e) ==> Writes(Cond(e, p)) == Writes(e)
    ensures !Holds(p, e) ==> Writes(Cond(e, p)) == Done()
    ensures !Holds(p, e) ==> Encoded(Cond(e, p)) == Ok([])
  {
  }

  /// The documented example: with "non-empty" as condition, `c"hello"`
  /// writes "hello\0" and `c""` writes nothing (`src/combinators/cond.rs:14-23`).
  lemma CondExample()
    ensures Encoded(Cond(CStr(CStrLiteral("hello")), NonEmpty)) == Ok(Ascii("hello") + [0])
    ensures Encoded(Cond(CStr([]), NonEmpty)) == Ok([])
  {
    CStrEncoding(CStrLiteral("hello"));
  }

  /// The bytes of a `c"..."` literal without its terminator.
  function CStrLiteral(s: string): (b: CStrBytes)
    requires IsAscii(s) && forall i :: 0 <= i < |s| ==> s[i] != '\0'
    ensures b == Ascii(s)
  {
    Ascii(s)
  }

  // ---- Iter ----------------------------------------------------------------

  /// `Iter` encodes its items in order and stops at the first error, as a
  /// tuple of the same items does.
  lemma IterEncoding(items: seq<Encodable>)
    ensures Writes(Iter(items)) == Writes(Tuple(items))
    ensures AllOk(items) ==> Encoded(Iter(items)) == Ok(Concat(Outputs(items)))
  {
    if AllOk(items) {
      TupleConcatenates(items);
    }
  }

  /// The documented example: the pairs `(c"hello", 1u8)` and
  /// `(c"world", 2u8)` give "hello\0\x01world\0\x02"
  /// (`src/combinators/iter.rs:9-15`).
  lemma IterExample()
    ensures Encoded(Iter([Tuple([CStr(CStrLiteral("hello")), Byte(1)]), Tuple([CStr(CStrLiteral("world")), Byte(2)])]))
      == Ok(Ascii("hello") + [0, 1] + Ascii("world") + [0, 2])
  {
    var first := Tuple([CStr(CStrLiteral("hello")), Byte(1)]);
    var second := Tuple([CStr(CStrLiteral("world")), Byte(2)]);
    PairBytes(CStrLiteral("hello"), 1);
    PairBytes(CStrLiteral("world"), 2);
    IterEncoding([first, second]);
    PairConcat(first, second);
    assert Encoded(Iter([first, second])) == Encoded(Tuple([first, second]));
    Regroup(CStrLiteral("hello") + [0, 1], CStrLiteral("world"), [0, 2]);
  }

  /// A `(CStr, u8)` pair: the string, its terminator, the byte.
  lemma PairBytes(s: CStrBytes, b: u8)
    ensures Encoded(Tuple([CStr(s), Byte(b)])) == Ok(s + [0, b])
  {
    CStrEncoding(s);
    ByteEncoding(b);
    PairConcat(CStr(s), Byte(b));
    assert s + [0] + [b] == s + [0, b];
  }

  /// A pair of values that both succeed writes one's bytes, then the other's.
  lemma PairConcat(a: Encodable, b: Encodable)
    requires Encoded(a).Ok? && Encoded(b).Ok?
    ensures Encoded(Tuple([a, b])) == Ok(Encoded(a).value + Encoded(b).value)
  {
    var items := [a, b];
    assert AllOk(items);
    TupleConcatenates(items);
    var outs := Outputs(items);
    assert outs[0] == Encoded(a).value && outs[1] == Encoded(b).value;
    assert outs[1..][1..] == [];
    assert Concat(outs[1..]) == outs[1] + Concat(outs[1..][1..]);
    assert Concat(outs) == outs[0] + Concat(outs[1..]);
    assert Concat(outs) == Encoded(a).value + Encoded(b).value;
    assert Encoded(Tuple(items)) == Ok(Concat(outs));
  }

  /// Three values that all succeed write their bytes one after another.
  lemma TripleConcat(a: Encodable, b: Encodable, c: Encodable)
    requires Encoded(a).Ok? && Encoded(b).Ok? && Encoded(c).Ok?
    ensures Encoded(Tuple([a, b, c])) == Ok(Encoded(a).value + Encoded(b).value + Encoded(c).value)
  {
    var outs := [Encoded(a).value, Encoded(b).value, Encoded(c).value];
    ThreeOutputs(a, b, c);
    TupleConcatenates([a, b, c]);
    assert outs[1..][1..][1..] == [];
    assert Concat(outs[1..][1..]) == outs[2] + Concat(outs[1..][1..][1..]);
    assert Concat(outs[1..]) == outs[1] + Concat(outs[1..][1..]);
    assert Concat(outs) == outs[0] + Concat(outs[1..]);
    assert Concat(outs) == outs[0] + outs[1] + outs[2];
  }

  // ---- Separated -----------------------------------------------------------

  /// Byte strings with `sep` between each two neighbours.
  function Join(xs: seq<seq<u8>>, sep: seq<u8>): seq<u8>
  {
    if xs == [] then []
    else if |xs| == 1 then xs[0]
    else xs[0] + sep + Join(xs[1..], sep)
  }

  function TotalLength(xs: seq<seq<u8>>): nat
  {
    if xs == [] then 0 else |xs[0]| + TotalLength(xs[1..])
  }

  /// `n` strings joined hold their own bytes and `n - 1` separators.
  lemma {:induction false} JoinLength(xs: seq<seq<u8>>, sep: seq<u8>)
    requires xs != []
    ensures |Join(xs, sep)| == TotalLength(xs) + (|xs| - 1) * |sep|
  {
    if |xs| > 1 {
      JoinLength(xs[1..], sep);
    }
  }

  /// When every item and the separator succeed, `Separated` writes the items'
  /// encodings joined by the separator's (`src/combinators/separated.rs:50-62`).
  lemma SeparatedJoins(items: seq<Encodable>, sep: Encodable)
    requires AllOk(items) && Encoded(sep).Ok?
    ensures Encoded(Separated(items, sep)) == Ok(Join(Outputs(items), Encoded(sep).value))
  {
    var s := Writes(sep);
    var sb := Output(s.chunks);
    assert Writes(Separated(items, sep)) == WritesSeparated(items, s);
    if items != [] {
      var outs := Outputs(items);
      var rest := SeparatedRest(items[1..], s);
      OutputsCons(items);
      RestJoins(items[1..], s);
      ThenOutput(Writes(items[0]), rest);
      JoinCons(outs, sb);
    }
  }

  /// The items after the first, each preceded by the separator's writes `s`.
  lemma {:induction false} RestJoins(items: seq<Encodable>, s: Trace)
    requires AllOk(items) && s.stop == Pass
    ensures SeparatedRest(items, s).stop == Pass
    ensures Output(SeparatedRest(items, s).chunks)
      == if items == [] then [] else Output(s.chunks) + Join(Outputs(items), Output(s.chunks))
  {
    if items != [] {
      var w := Writes(items[0]);
      var rest := SeparatedRest(items[1..], s);
      assert SeparatedRest(items, s) == Then(Then(s, w), rest);
      OutputsCons(items);
      RestJoins(items[1..], s);
      ThenOutput(s, w);
      ThenOutput(Then(s, w), rest);
      var sb, wo, ro := Output(s.chunks), Output(w.chunks), Output(rest.chunks);
      JoinCons(Outputs(items), sb);
      assert Join(Outputs(items), sb) == wo + ro;
      Regroup(sb, wo, ro);
    }
  }

  /// The first item of a list that succeeds, and the rest.
  lemma OutputsCons(items: seq<Encodable>)
    requires AllOk(items) && items != []
    ensures Writes(items[0]).stop == Pass
    ensures Outputs(items)[0] == Output(Writes(items[0]).chunks)
    ensures AllOk(items[1..]) && Outputs(items[1..]) == Outputs(items)[1..]
  {
    assert Encoded(items[0]).Ok?;
    OutputsTail(items);
  }

  /// The bytes of `p?; q` when `p` succeeds.
  lemma ThenOutput(p: Trace, q: Trace)
    requires p.stop == Pass
    ensures Then(p, q).stop == q.stop
    ensures Output(Then(p, q).chunks) == Output(p.chunks) + Output(q.chunks)
  {
    OutputAppend(p.chunks, q.chunks);
  }

  /// One step of `Join`.
  lemma JoinCons(xs: seq<seq<u8>>, sep: seq<u8>)
    requires xs != []
    ensures Join(xs, sep) == xs[0] + (if xs[1..] == [] then [] else sep + Join(xs[1..], sep))
  {
    if xs[1..] != [] {
      assert xs[0] + sep + Join(xs[1..], sep) == xs[0] + (sep + Join(xs[1..], sep));
    }
  }

  /// With fewer than two items the separator is never encoded, so even a
  /// failing separator changes nothing.
  lemma SeparatorUnused(items: seq<Encodable>, sep: Encodable)
    requires |items| <= 1
    ensures Writes(Separated(items, sep)) == Writes(Tuple(items))
  {
    var s := Writes(sep);
    assert Writes(Separated(items, sep)) == WritesSeparated(items, s);
    assert Writes(Tuple(items)) == WritesAll(items);
    if |items| == 1 {
      assert items[1..] == [];
      assert WritesSeparated(items, s) == Then(Writes(items[0]), SeparatedRest([], s));
      assert WritesAll(items) == Then(Writes(items[0]), WritesAll([]));
    }
  }

  /// With two items or more, a failing separator fails the whole encoding,
  /// right after the first item (`src/combinators/separated.rs:57`).
  lemma SeparatorFails(items: seq<Encodable>, sep: Encodable)
    requires |items| >= 2 && Encoded(items[0]).Ok? && Encoded(sep).Err?
    ensures Encoded(Separated(items, sep)) == Encoded(sep)
    ensures Writes(Separated(items, sep)).chunks == Writes(items[0]).chunks + Writes(sep).chunks
  {
    var s := Writes(sep);
    var w := Writes(items[0]);
    assert s.stop.Fail?;
    assert Writes(Separated(items, sep)) == WritesSeparated(items, s);
    assert SeparatedRest(items[1..], s) == Then(Then(s, Writes(items[1..][0])), SeparatedRest(items[1..][1..], s));
    assert SeparatedRest(items[1..], s) == s;
    assert WritesSeparated(items, s) == Then(w, s);
  }

  /// Three strings joined.
  lemma JoinThree(a: seq<u8>, b: seq<u8>, c: seq<u8>, sep: seq<u8>)
    ensures Join([a, b, c], sep) == a + sep + b + sep + c
  {
    assert [a, b, c][1..] == [b, c];
    assert [b, c][1..] == [c];
    assert Join([c], sep) == c;
    assert Join([b, c], sep) == b + sep + c;
    assert Join([a, b, c], sep) == a + sep + (b + sep + c);
  }

  /// The documented example: `["hello", "world", "another"]` separated by
  /// ", " gives "hello, world, another" (`src/combinators/separated.rs:11-13`).
  lemma SeparatedExample()
    ensures IsAscii("hello, world, another")
    ensures Encoded(Separated([Str("hello"), Str("world"), Str("another")], Str(", ")))
      == Ok(Ascii("hello, world, another"))
  {
    SeparatedThree("hello", "world", "another", ", ");
    AsciiJoin();
  }

  /// Three ASCII strings separated by an ASCII separator.
  lemma SeparatedThree(a: string, b: string, c: string, sep: string)
    requires IsAscii(a) && IsAscii(b) && IsAscii(c) && IsAscii(sep)
    ensures Encoded(Separated([Str(a), Str(b), Str(c)], Str(sep)))
      == Ok(Ascii(a) + Ascii(sep) + Ascii(b) + Ascii(sep) + Ascii(c))
  {
    AsciiWord(a);
    AsciiWord(b);
    AsciiWord(c);
    AsciiWord(sep);
    ThreeOutputs(Str(a), Str(b), Str(c));
    SeparatedJoins([Str(a), Str(b), Str(c)], Str(sep));
    JoinThree(Ascii(a), Ascii(b), Ascii(c), Ascii(sep));
  }

  /// Three values that succeed, and their bytes.
  lemma ThreeOutputs(a: Encodable, b: Encodable, c: Encodable)
    requires Encoded(a).Ok? && Encoded(b).Ok? && Encoded(c).Ok?
    ensures AllOk([a, b, c])
    ensures Outputs([a, b, c]) == [Encoded(a).value, Encoded(b).value, Encoded(c).value]
  {
  }

  lemma AsciiWord(s: string)
    requires IsAscii(s)
    ensures Encoded(Str(s)) == Ok(Ascii(s))
  {
    StrEncoding(s);
    EncodeAscii(s);
  }

  lemma AsciiJoin()
    ensures IsAscii("hello, world, another")
    ensures Ascii("hello") + Ascii(", ") + Ascii("world") + Ascii(", ") + Ascii("another")
      == Ascii("hello, world, another")
  {
    assert "hello" + ", " == "hello, ";
    AsciiAppend("hello", ", ");
    assert "hello, " + "world" == "hello, world";
    AsciiAppend("hello, ", "world");
    assert "hello, world" + ", " == "hello, world, ";
    AsciiAppend("hello, world", ", ");
    assert "hello, world, " + "another" == "hello, world, another";
    AsciiAppend("hello, world, ", "another");
  }

  // ---- FromError -----------------------------------------------------------

  /// `FromError` writes exactly what its value writes and fails exactly when
  /// it does; only the error's type changes, and every conversion the model
  /// needs is the identity (`src/combinators/from_error.rs:74-77`).
  lemma FromErrorEncoding(e: Encodable, s: Sink)
    requires CanTake(s, Writes(e).chunks)
    ensures Writes(FromError(e)) == Writes(e)
    ensures Run(s, Writes(FromError(e))) == Run(s, Writes(e))
  {
  }

  /// The documented example: `FromError::new("hello")` writes "hello"
  /// (`src/combinators/from_error.rs:18-20`).
  lemma FromErrorExample()
    ensures IsAscii("hello")
    ensures Encoded(FromError(Str("hello"))) == Ok(Ascii("hello"))
  {
    AsciiWord("hello");
  }

  // ---- LengthPrefix ----------------------------------------------------------

  /// The largest length a `Length` type can hold.
  function LengthMax(length: LengthType): nat
  {
    match length
    case LenU8 => 0xFF
    case LenI8 => 0x7F
    case LenLE(k) => if Max(k) < 0 then 0 else Max(k)
    case LenBE(k) => if Max(k) < 0 then 0 else Max(k)
  }

  /// The number of bytes of the length field.
  function LengthWidth(length: LengthType): nat
  {
    match length
    case LenU8 => 1
    case LenI8 => 1
    case LenLE(k) => Width(k)
    case LenBE(k) => Width(k)
  }

  /// A reader of the length field, as a decoder would apply it: the
  /// unsigned value of its bytes in the type's byte order.
  function ReadLength(length: LengthType, b: seq<u8>): nat
  {
    match length
    case LenU8 => FromLEBytes(b)
    case LenI8 => FromLEBytes(b)
    case LenLE(_) => FromLEBytes(b)
    case LenBE(_) => FromLEBytes(Reverse(b))
  }

  /// `Length::try_from(len)` succeeds exactly when `len` fits the type.
  lemma NarrowFits(length: LengthType, n: nat)
    ensures Narrow(length, n).Ok? <==> n <= LengthMax(length)
  {
    match length
    case LenU8 =>
    case LenI8 =>
    case LenLE(k) =>
    case LenBE(k) =>
  }

  /// When the payload encodes and its size fits the length type,
  /// `LengthPrefix` writes a length field of the type's width followed by
  /// the payload, and the field reads back as the payload's size
  /// (`src/combinators/length_prefix.rs:49-56`).
  lemma LengthPrefixLayout(inner: Encodable, length: LengthType)
    requires Encoded(inner).Ok? && |Encoded(inner).value| <= LengthMax(length)
    ensures var payload := Encoded(inner).value;
      var out := Encoded(LengthPrefix(inner, length));
      out.Ok? && |out.value| == LengthWidth(length) + |payload| &&
      out.value[LengthWidth(length)..] == payload &&
      ReadLength(length, out.value[..LengthWidth(length)]) == |payload|
  {
    var payload := Encoded(inner).value;
    NarrowFits(length, |payload|);
    var n := Narrow(length, |payload|).value;
    PrefixThen(inner, length);
    var field := ChunkBytes(LeafWrites(n).chunks[0]);
    LeafOutput(n, length, |payload|);
    ThenOutput(LeafWrites(n), Writes(inner));
    FieldReadsBack(length, |payload|);
  }

  /// A length that fits is written before the payload.
  lemma PrefixThen(inner: Encodable, length: LengthType)
    requires Encoded(inner).Ok? && Narrow(length, |Encoded(inner).value|).Ok?
    ensures Writes(LengthPrefix(inner, length)) == Then(LeafWrites(Narrow(length, |Encoded(inner).value|).value), Writes(inner))
  { }

  /// A narrowed length writes its field as one raw chunk.
  lemma LeafOutput(n: Encodable, length: LengthType, m: nat)
    requires Narrow(length, m) == Ok(n)
    ensures LeafWrites(n).stop == Pass && |LeafWrites(n).chunks| == 1
    ensures Output(LeafWrites(n).chunks) == ChunkBytes(LeafWrites(n).chunks[0])
  {
    var field := ChunkBytes(LeafWrites(n).chunks[0]);
    assert LeafWrites(n) == Emit(Raw(field));
    assert [Raw(field)][1..] == [];
    assert Output([Raw(field)]) == field + Output([]);
  }

  /// The length field's bytes for a length that fits, and what they read as.
  lemma FieldReadsBack(length: LengthType, m: nat)
    requires m <= LengthMax(length)
    ensures Narrow(length, m).Ok?
    ensures var f := ChunkBytes(LeafWrites(Narrow(length, m).value).chunks[0]);
      |f| == LengthWidth(length) && ReadLength(length, f) == m
  {
    NarrowFits(length, m);
    var n := Narrow(length, m).value;
    match length
    case LenU8 =>
      assert n == Byte(m as u8);
      assert LeafWrites(n).chunks[0] == Raw([m as u8]);
      assert [m as u8][1..] == [];
      assert FromLEBytes([m as u8]) == m as u8 as nat + 256 * FromLEBytes([]);
    case LenI8 =>
      assert n == SignedByte(m as i8);
      assert LeafWrites(n).chunks[0] == Raw([ByteOf(m as i8)]);
      assert [ByteOf(m as i8)][1..] == [];
      assert FromLEBytes([ByteOf(m as i8)]) == ByteOf(m as i8) as nat + 256 * FromLEBytes([]);
    case LenLE(k) =>
      var v := n.le;
      SmallReadsBack(v);
    case LenBE(k) =>
      var v := n.be;
      BEIsReversedLE(Width(k), Bits(v));
      ReverseReverse(ToLE(v));
      SmallReadsBack(v);
  }

  /// A non-negative number's little-endian bytes read back as itself.
  lemma SmallReadsBack(v: Fixed)
    requires v.value >= 0
    ensures FromLEBytes(ToLE(v)) == v.value
  {
    var p := Pow256(Width(v.kind));
    FromLEBytesOfLE(Width(v.kind), v.value);
    DivModUnique(v.value, p, 0, v.value);
  }

  /// A payload too long for the length type fails with `TryFromIntError`
  /// before anything is written, whatever the encoder
  /// (`src/combinators/length_prefix.rs:51`).
  lemma LengthPrefixTooLong(inner: Encodable, length: LengthType, s: Sink)
    requires Encoded(inner).Ok? && |Encoded(inner).value| > LengthMax(length)
    requires SinkValid(s)
    ensures Encoded(LengthPrefix(inner, length)) == Err(TryFromIntError)
    ensures Run(s, Writes(LengthPrefix(inner, length))) == Step(s, Fail(TryFromIntError))
  {
    NarrowFits(length, |Encoded(inner).value|);
  }

  /// A payload that fails fails the prefix with its own error, again before
  /// anything is written: the size pass already meets the error
  /// (`src/combinators/length_prefix.rs:50`).
  lemma LengthPrefixInnerFails(inner: Encodable, length: LengthType, s: Sink)
    requires Encoded(inner).Err? && SinkValid(s)
    ensures Encoded(LengthPrefix(inner, length)) == Encoded(inner)
    ensures Run(s, Writes(LengthPrefix(inner, length))) == Step(s, Fail(Encoded(inner).error))
  {
  }

  /// A `u8` length before a payload that fits is one byte holding its length.
  lemma U8Prefix(inner: Encodable)
    requires Encoded(inner).Ok? && |Encoded(inner).value| <= 0xFF
    ensures Encoded(LengthPrefix(inner, LenU8)) == Ok([|Encoded(inner).value| as u8] + Encoded(inner).value)
  {
    LengthPrefixLayout(inner, LenU8);
    var out := Encoded(LengthPrefix(inner, LenU8)).value;
    assert out == out[..1] + out[1..];
    assert out[..1] == [out[0]];
    assert FromLEBytes([out[0]][1..]) == 0;
  }

  /// The documented example: a `u8` length before "hello" gives "\x05hello"
  /// (`src/combinators/length_prefix.rs:11-13`).
  lemma LengthPrefixExample()
    ensures IsAscii("hello")
    ensures Encoded(LengthPrefix(Str("hello"), LenU8)) == Ok([5] + Ascii("hello"))
  {
    AsciiWord("hello");
    U8Prefix(Str("hello"));
  }
}
