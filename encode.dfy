/// `Encodable::encode` and `EncodableSize::encoded_size` as methods that write
/// into real encoders (module `Encoders`), each proved to perform exactly the
/// writes `Encodables.Writes` gives, so that the encoder ends up where
/// `Encoding.Run` says.
module Encode {
  import opened Utf8
  import opened Errors
  import opened FixedInts
  import opened Flags
  import opened Encoding
  import opened Encoders
  import opened Encodables

  /// `e.encode(encoder)`. A `String` encoder only accepts values whose type
  /// needs no more than a `StrEncoder`.
  method Encode(e: Encodable, d: Dest) returns (r: Outcome)
    requires Valid(d) && (d.ToString? ==> IsText(e))
    modifies Repr(d)
    ensures Valid(d)
    ensures Step(State(d), r) == Run(old(State(d)), Writes(e))
    decreases e, 2
  {
    if IsLeaf(e) {
      r := EncodeLeaf(e, d);
    } else {
      match e
      case Tuple(items) =>
        r := EncodeAll(items, d);
      case Iter(items) =>
        r := EncodeAll(items, d);
      case Separated(items, sep) =>
        r := EncodeSeparated(items, sep, d);
      case LengthPrefix(inner, length) =>
        r := EncodeLengthPrefix(inner, length, d);
      case Opt(_) | Res(_) | Ref(_, _) | Cond(_, _) | FromError(_) =>
        r := EncodeWrapped(e, d);
    }
  }

  /// The wrappers that hand over to the value they hold: `Option` writes
  /// nothing for `None`, `Result` returns its own error, a reference encodes
  /// its target, `Cond` encodes its value only when the predicate holds, and
  /// `FromError` only converts the error type.
  method EncodeWrapped(e: Encodable, d: Dest) returns (r: Outcome)
    requires !IsLeaf(e) && !e.Tuple? && !e.Iter? && !e.Separated? && !e.LengthPrefix?
    requires Valid(d) && (d.ToString? ==> IsText(e))
    modifies Repr(d)
    ensures Valid(d)
    ensures Step(State(d), r) == Run(old(State(d)), Writes(e))
    decreases e, 1
  {
    match e
    case Opt(o) =>
      match o {
        case None =>
          r := Pass;
        case Some(v) =>
          r := Encode(v, d);
      }
    case Res(x) =>
      match x {
        case Ok(v) =>
          r := Encode(v, d);
        case Err(err) =>
          r := Fail(err);
      }
    case Ref(_, inner) =>
      r := Encode(inner, d);
    case Cond(inner, p) =>
      if Holds(p, inner) {
        r := Encode(inner, d);
      } else {
        r := Pass;
      }
    case FromError(inner) =>
      r := Encode(inner, d);
  }

  /// The single write of a leaf value: `u8` is `put_byte` of itself, `i8`
  /// and `bool` are `put_byte` of `v as u8` and `u8::from(b)`, `char` is
  /// `put_str` of its UTF-8 form, byte slices are one `put_slice`, `str` is
  /// `put_str`, `CStr` is `put_slice` of `to_bytes_with_nul`, `LE`/`BE` are
  /// `put_slice` of `to_le_bytes`/`to_be_bytes`, and `Flags` is `put_byte` of
  /// `u8::from(flags)`.
  method EncodeLeaf(e: Encodable, d: Dest) returns (r: Outcome)
    requires IsLeaf(e) && Valid(d) && (d.ToString? ==> IsText(e))
    modifies Repr(d)
    ensures Valid(d)
    ensures Step(State(d), r) == Run(old(State(d)), LeafWrites(e))
  {
    ghost var before := State(d);
    match e
    case Byte(b) =>
      r := PutByte(d, b);
      RunEmit(before, Raw([b]));
    case SignedByte(v) =>
      r := PutByte(d, ByteOf(v));
      RunEmit(before, Raw([ByteOf(v)]));
    case Boolean(f) =>
      r := PutByte(d, BoolByte(f));
      RunEmit(before, Raw([BoolByte(f)]));
    case Character(c) =>
      r := PutStr(d, [c]);
      RunEmit(before, Text([c]));
    case Bytes(b) =>
      r := PutSlice(d, b);
      RunEmit(before, Raw(b));
    case Str(s) =>
      r := PutStr(d, s);
      RunEmit(before, Text(s));
    case CStr(b) =>
      r := PutSlice(d, b + [0]);
      RunEmit(before, Raw(b + [0]));
    case LE(n) =>
      r := PutSlice(d, ToLE(n));
      RunEmit(before, Raw(ToLE(n)));
    case BE(n) =>
      r := PutSlice(d, ToBE(n));
      RunEmit(before, Raw(ToBE(n)));
    case LENonZero(n) =>
      r := PutSlice(d, ToLE(n));
      RunEmit(before, Raw(ToLE(n)));
    case BENonZero(n) =>
      r := PutSlice(d, ToBE(n));
      RunEmit(before, Raw(ToBE(n)));
    case FlagSet(f) =>
      r := PutByte(d, ToByte(f));
      RunEmit(before, Raw([ToByte(f)]));
  }

  /// A tuple's members, or an `Iter`'s items, encoded left to right into the
  /// same encoder; the first error is returned at once.
  method EncodeAll(items: seq<Encodable>, d: Dest) returns (r: Outcome)
    requires Valid(d) && (d.ToString? ==> forall i :: 0 <= i < |items| ==> IsText(items[i]))
    modifies Repr(d)
    ensures Valid(d)
    ensures Step(State(d), r) == Run(old(State(d)), WritesAll(items))
    decreases items, 0
  {
    ghost var total := Run(State(d), WritesAll(items));
    var i := 0;
    while i < |items|
      invariant 0 <= i <= |items| && Valid(d)
      invariant Resumes(total, State(d), WritesAll(items[i..]))
    {
      ghost var before := State(d);
      assert items[i..][1..] == items[i + 1..];
      r := Encode(items[i], d);
      StepThen(total, before, State(d), r, Writes(items[i]), WritesAll(items[i + 1..]));
      if r.Fail? {
        return;
      }
      i := i + 1;
    }
    r := Pass;
  }

  /// What is left of a `Separated` after its first `i` items.
  ghost function SeparatedFrom(items: seq<Encodable>, i: nat, sep: Trace): Trace
    requires i <= |items|
  {
    if i == 0 then WritesSeparated(items, sep) else SeparatedRest(items[i..], sep)
  }

  /// `Separated::encode`: a flag `is_first` skips the separator before the
  /// first item; every later item is preceded by one. The first error is
  /// returned at once.
  method EncodeSeparated(items: seq<Encodable>, sep: Encodable, d: Dest) returns (r: Outcome)
    requires Valid(d) && (d.ToString? ==> IsText(Separated(items, sep)))
    modifies Repr(d)
    ensures Valid(d)
    ensures Step(State(d), r) == Run(old(State(d)), WritesSeparated(items, Writes(sep)))
    decreases Separated(items, sep), 1
  {
    ghost var st := Writes(sep);
    ghost var total := Run(State(d), WritesSeparated(items, st));
    var isFirst := true;
    var i := 0;
    while i < |items|
      invariant 0 <= i <= |items| && Valid(d)
      invariant isFirst <==> i == 0
      invariant Resumes(total, State(d), SeparatedFrom(items, i, st))
    {
      r := EncodeSeparatedItem(items, i, isFirst, sep, d, st, total);
      if r.Fail? {
        return;
      }
      isFirst := false;
      i := i + 1;
    }
    SeparatedFromEnd(items, st);
    r := Pass;
  }

  /// Nothing is left once every item is written.
  lemma SeparatedFromEnd(items: seq<Encodable>, sep: Trace)
    ensures SeparatedFrom(items, |items|, sep) == Done()
  {
    if items != [] {
      assert items[|items|..] == [];
    }
  }

  /// One turn of the loop in `Separated::encode`: the separator unless
  /// `is_first`, then item `i`. The run goes on as the rest of the items, or
  /// has ended with the first error.
  method EncodeSeparatedItem(items: seq<Encodable>, i: nat, isFirst: bool, sep: Encodable, d: Dest,
                             ghost st: Trace, ghost total: Step)
    returns (r: Outcome)
    requires i < |items| && (isFirst <==> i == 0) && st == Writes(sep)
    requires Valid(d) && (d.ToString? ==> IsText(Separated(items, sep)))
    requires Resumes(total, State(d), SeparatedFrom(items, i, st))
    modifies Repr(d)
    ensures Valid(d)
    ensures r.Fail? ==> total == Step(State(d), r)
    ensures r.Pass? ==> Resumes(total, State(d), SeparatedFrom(items, i + 1, st))
    decreases Separated(items, sep), 0
  {
    assert items[i..][1..] == items[i + 1..];
    ghost var next := SeparatedRest(items[i + 1..], st);
    ghost var before := State(d);
    if !isFirst {
      ThenAssociative(st, Writes(items[i]), next);
      r := Encode(sep, d);
      StepThen(total, before, State(d), r, st, Then(Writes(items[i]), next));
      if r.Fail? {
        return;
      }
      before := State(d);
    }
    r := Encode(items[i], d);
    StepThen(total, before, State(d), r, Writes(items[i]), next);
  }

  /// `LengthPrefix::encode`: the payload's size is computed with a counting
  /// pass (`encoded_size`), narrowed to the length type, and only then are
  /// the length and the payload written into the real encoder.
  method EncodeLengthPrefix(inner: Encodable, length: LengthType, d: Dest) returns (r: Outcome)
    requires Valid(d) && !d.ToString?
    modifies Repr(d)
    ensures Valid(d)
    ensures Step(State(d), r) == Run(old(State(d)), PrefixWrites(Writes(inner), length))
    decreases LengthPrefix(inner, length), 0
  {
    ghost var total := Run(State(d), PrefixWrites(Writes(inner), length));
    PrefixSteps(State(d), inner, length);
    var n := SizedLength(inner, length);
    if n.Err? {
      return Fail(n.error);
    }
    ghost var before := State(d);
    r := EncodeLeaf(n.value, d);
    StepThen(total, before, State(d), r, LeafWrites(n.value), Writes(inner));
    if r.Fail? {
      return;
    }
    r := Encode(inner, d);
  }

  /// A byte encoder takes any length prefix; with no length value nothing is
  /// written, and otherwise the length's write comes before the payload's.
  lemma PrefixSteps(s: Sink, inner: Encodable, length: LengthType)
    requires SinkValid(s) && !s.TextSink?
    ensures CanTake(s, PrefixWrites(Writes(inner), length).chunks)
    ensures var n := LengthValue(Writes(inner), length);
      (n.Err? ==> Run(s, PrefixWrites(Writes(inner), length)) == Step(s, Fail(n.error))) &&
      (n.Ok? ==> PrefixWrites(Writes(inner), length) == Then(LeafWrites(n.value), Writes(inner)))
  {
    var n := LengthValue(Writes(inner), length);
    if n.Err? {
      assert PrefixWrites(Writes(inner), length) == Failed(n.error);
    }
  }

  /// The first two steps of `LengthPrefix::encode`: `encoded_size()?` and
  /// `Length::try_from(len)?`.
  method SizedLength(inner: Encodable, length: LengthType) returns (n: Result<Encodable>)
    ensures n == LengthValue(Writes(inner), length)
    decreases inner, 4
  {
    var size := EncodedSize(inner);
    if size.Err? {
      return Err(size.error);
    }
    n := Narrow(length, size.value);
  }

  /// `encoded_size`: encodes into a fresh `SizeEncoder` and returns its
  /// count, or the error of the encoding (`src/lib.rs:179-183`). The count is
  /// exactly the number of bytes a real encoder receives.
  method EncodedSize(e: Encodable) returns (r: Result<nat>)
    ensures Encoded(e).Ok? ==> r == Ok(|Encoded(e).value|)
    ensures Encoded(e).Err? ==> r == Err(Encoded(e).error)
    decreases e, 3
  {
    var counter := new SizeEncoder();
    var outcome := Encode(e, ToSize(counter));
    RunSize(0, Writes(e));
    if outcome.Fail? {
      return Err(outcome.error);
    }
    r := Ok(counter.Size());
  }

  /// Encoding is deterministic: the same value encoded into two fresh
  /// `Vec<u8>` encoders gives the same bytes and the same verdict. The bytes
  /// are all those the encoding wrote, also when it failed.
  method DeterministicOutput(e: Encodable) returns (first: seq<u8>, second: seq<u8>, r1: Outcome, r2: Outcome)
    ensures first == second && r1 == r2
    ensures first == Output(Writes(e).chunks) && r1 == Writes(e).stop
  {
    var a := new VecEncoder(0);
    r1 := Encode(e, ToVec(a));
    var b := new VecEncoder(0);
    r2 := Encode(e, ToVec(b));
    RunVec([], Writes(e));
    first, second := a.contents, b.contents;
  }

  /// Size first, then encode into a `Vec<u8>` with that capacity: the buffer
  /// receives exactly as many bytes as `encoded_size` announced.
  method SizeThenEncode(e: Encodable) returns (size: Result<nat>, bytes: seq<u8>)
    ensures size.Ok? <==> Encoded(e).Ok?
    ensures size.Ok? ==> bytes == Encoded(e).value && |bytes| == size.value
  {
    size := EncodedSize(e);
    if size.Err? {
      return size, [];
    }
    var buf := new VecEncoder(size.value);
    var outcome := Encode(e, ToVec(buf));
    RunVec([], Writes(e));
    bytes := buf.contents;
  }
}
