/// The values the library knows how to encode, and what encoding each of them
/// does, as a `Trace` (module `Encoding`).
///
/// Rust dispatches `Encodable::encode` on the type of the value; here the
/// types in scope are the constructors of one datatype, and `Writes` gives
/// each the writes its `encode` performs. The imperative `Encode.Encode` is
/// proved to perform exactly these writes.
module Encodables {
  import opened Utf8
  import opened Errors
  import opened FixedInts
  import opened Flags
  import opened Encoding

  /// The bytes of a `CStr` before its terminator: no interior nul.
  type CStrBytes = b: seq<u8> | forall i :: 0 <= i < |b| ==> b[i] != 0

  /// How a value is held: `&T`, `Box<T>`, or a borrowed or owned `Cow<T>`.
  datatype RefKind = Borrowed | Boxed | CowBorrowed | CowOwned

  /// The condition of a `Cond`, evaluated on the value it guards.
  datatype Pred =
    | NonEmpty            // `|v| !v.is_empty()`
    | Empty               // `|v| v.is_empty()`
    | Constant(b: bool)   // a closure that ignores its argument

  /// The `Length` parameter of a `LengthPrefix`: a type that is both
  /// `Encodable` and `TryFrom<usize>`.
  datatype LengthType = LenU8 | LenI8 | LenLE(kind: IntKind) | LenBE(kind: IntKind)

  datatype Encodable =
    | Byte(byte: u8)                                  // `u8`
    | SignedByte(signed: i8)                          // `i8`
    | Boolean(flag: bool)                             // `bool`
    | Character(ch: char)                             // `char`
    | Bytes(bytes: seq<u8>)                           // `[u8]`, `[u8; N]`, `Vec<u8>`
    | Str(s: string)                                  // `str`, `String`
    | CStr(cstr: CStrBytes)                           // `CStr`, `CString`
    | LE(le: Fixed)                                   // `LE<T>`
    | BE(be: Fixed)                                   // `BE<T>`
    | LENonZero(lenz: NonZeroFixed)                   // `LE<NonZero<T>>`
    | BENonZero(benz: NonZeroFixed)                   // `BE<NonZero<T>>`
    | FlagSet(flags: FlagArray)                       // `Flags`
    | Tuple(items: seq<Encodable>)                    // `()`, `(A,)` ... `(A, ..., Z)`
    | Opt(opt: Option<Encodable>)                     // `Option<T>`
    | Res(res: Result<Encodable>)                     // `Result<T, T::Error>`
    | Ref(kind: RefKind, inner: Encodable)            // `&T`, `Box<T>`, `Cow<T>`
    | Cond(inner: Encodable, pred: Pred)              // `Cond<E, F>`
    | Iter(items: seq<Encodable>)                     // `Iter<I>`
    | Separated(items: seq<Encodable>, sep: Encodable) // `Separated<I, S>`
    | FromError(inner: Encodable)                     // `FromError<E, DstError>`
    | LengthPrefix(inner: Encodable, length: LengthType) // `LengthPrefix<E, Length, Error>`

  /// The values whose `encode` is a single write.
  predicate IsLeaf(e: Encodable)
  {
    e.Byte? || e.SignedByte? || e.Boolean? || e.Character? || e.Bytes? || e.Str? ||
    e.CStr? || e.LE? || e.BE? || e.LENonZero? || e.BENonZero? || e.FlagSet?
  }

  /// The values whose type only needs a `StrEncoder`, so that they can be
  /// written into a `String`. Everything else asks for a byte encoder.
  predicate IsText(e: Encodable)
  {
    match e
    case Character(_) => true
    case Str(_) => true
    case Tuple(items) => forall i :: 0 <= i < |items| ==> IsText(items[i])
    case Ref(_, inner) => IsText(inner)
    case Cond(inner, _) => IsText(inner)
    case Separated(items, sep) => IsText(sep) && forall i :: 0 <= i < |items| ==> IsText(items[i])
    case _ => false
  }

  /// `is_empty()` of the value a `Cond` guards, for the values that have one.
  predicate IsEmptyValue(e: Encodable)
  {
    match e
    case Bytes(b) => b == []
    case Str(s) => s == []
    case CStr(b) => b == []
    case Tuple(items) => items == []
    case Iter(items) => items == []
    case Opt(o) => o.None?
    case Ref(_, inner) => IsEmptyValue(inner)
    case _ => false
  }

  predicate Holds(p: Pred, e: Encodable)
  {
    match p
    case NonEmpty => !IsEmptyValue(e)
    case Empty => IsEmptyValue(e)
    case Constant(b) => b
  }

  /// `false as u8` and `true as u8`.
  function BoolByte(b: bool): u8
  {
    if b then 1 else 0
  }

  /// The single write of a leaf value.
  function LeafWrites(e: Encodable): (t: Trace)
    requires IsLeaf(e)
    ensures t.stop == Pass && |t.chunks| == 1
  {
    match e
    case Byte(b) => Emit(Raw([b]))
    case SignedByte(v) => Emit(Raw([ByteOf(v)]))
    case Boolean(f) => Emit(Raw([BoolByte(f)]))
    case Character(c) => Emit(Text([c]))
    case Bytes(b) => Emit(Raw(b))
    case Str(s) => Emit(Text(s))
    case CStr(b) => Emit(Raw(b + [0]))
    case LE(n) => Emit(Raw(ToLE(n)))
    case BE(n) => Emit(Raw(ToBE(n)))
    case LENonZero(n) => Emit(Raw(ToLE(n)))
    case BENonZero(n) => Emit(Raw(ToBE(n)))
    case FlagSet(f) => Emit(Raw([ToByte(f)]))
  }

  /// `Length::try_from(n)`: the length value, if `n` fits the type.
  function Narrow(length: LengthType, n: nat): (r: Result<Encodable>)
    ensures r.Ok? ==> IsLeaf(r.value)
    ensures r.Err? ==> r.error == TryFromIntError
  {
    match length
    case LenU8 => if n <= 0xFF then Ok(Byte(n as u8)) else Err(TryFromIntError)
    case LenI8 => if n <= 0x7F then Ok(SignedByte(n as i8)) else Err(TryFromIntError)
    case LenLE(k) =>
      (match TryFrom(k, n)
       case Ok(v) => Ok(LE(v))
       case Err(e) => Err(e))
    case LenBE(k) =>
      (match TryFrom(k, n)
       case Ok(v) => Ok(BE(v))
       case Err(e) => Err(e))
  }

  /// The length value of a `LengthPrefix` whose payload writes `t`: the
  /// size pass fails with the payload's own error, and otherwise the number
  /// of bytes is narrowed to the length type (`src/combinators/length_prefix.rs:50-51`).
  function LengthValue(t: Trace, length: LengthType): (r: Result<Encodable>)
    ensures r.Ok? ==> IsLeaf(r.value)
  {
    if t.stop.Fail? then Err(t.stop.error) else Narrow(length, |Output(t.chunks)|)
  }

  /// `LengthPrefix::encode` given the payload's writes `t`: nothing is
  /// written unless the length value exists; then the length, then the
  /// payload.
  function PrefixWrites(t: Trace, length: LengthType): (r: Trace)
    ensures r.stop.Fail? ==> r.chunks == []
    ensures r.stop.Pass? ==> t.stop.Pass?
  {
    match LengthValue(t, length)
    case Err(e) => Failed(e)
    case Ok(n) => Then(LeafWrites(n), t)
  }

  /// The writes `e.encode(encoder)` performs, and its verdict.
  function Writes(e: Encodable): (t: Trace)
    ensures IsText(e) ==> AllText(t.chunks)
    decreases e
  {
    if IsLeaf(e) then
      LeafWrites(e)
    else
      match e
      case Tuple(items) => WritesAll(items)
      case Opt(o) =>
        (match o
         case None => Done()
         case Some(v) => Writes(v))
      case Res(r) =>
        (match r
         case Ok(v) => Writes(v)
         case Err(err) => Failed(err))
      case Ref(_, inner) => Writes(inner)
      case Cond(inner, p) => if Holds(p, inner) then Writes(inner) else Done()
      case Iter(items) => WritesAll(items)
      case Separated(items, sep) => WritesSeparated(items, Writes(sep))
      case FromError(inner) => Writes(inner)
      case LengthPrefix(inner, length) => PrefixWrites(Writes(inner), length)
  }

  /// The items one after another, stopping at the first failure.
  function WritesAll(items: seq<Encodable>): (t: Trace)
    ensures (forall i :: 0 <= i < |items| ==> IsText(items[i])) ==> AllText(t.chunks)
    decreases items
  {
    if items == [] then Done() else Then(Writes(items[0]), WritesAll(items[1..]))
  }

  /// `Separated`: the first item alone, then separator and item for each of
  /// the rest.
  function WritesSeparated(items: seq<Encodable>, sep: Trace): (t: Trace)
    ensures AllText(sep.chunks) && (forall i :: 0 <= i < |items| ==> IsText(items[i])) ==> AllText(t.chunks)
    decreases items
  {
    if items == [] then Done() else Then(Writes(items[0]), SeparatedRest(items[1..], sep))
  }

  /// The items after the first, each preceded by the separator.
  function SeparatedRest(items: seq<Encodable>, sep: Trace): (t: Trace)
    ensures AllText(sep.chunks) && (forall i :: 0 <= i < |items| ==> IsText(items[i])) ==> AllText(t.chunks)
    decreases items
  {
    if items == [] then Done() else Then(Then(sep, Writes(items[0])), SeparatedRest(items[1..], sep))
  }

  /// The bytes of a successful encoding, or its error: what any byte encoder
  /// with room enough receives (`Encoding.RunVec`).
  function Encoded(e: Encodable): Result<seq<u8>>
  {
    var t := Writes(e);
    if t.stop.Fail? then Err(t.stop.error) else Ok(Output(t.chunks))
  }
}
