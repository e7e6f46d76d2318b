/// The BSON encoder of `examples/bson.rs`: documents, elements and strings
/// of the BSON 1.1 grammar (bsonspec.org), written through the library's
/// combinators, with the two self-sized forms — a document and a
/// `code_w_s` value, whose int32 counts the field itself — computed by a
/// counting pass before anything is written.
///
/// `BsonError` is not a type of its own: `TooLarge` is the model's
/// `TryFromIntError` and `InsufficientSpace` is `InsufficientSpace`, and the
/// `From` conversions of `examples/bson.rs:43-57` are the identity.
module Bson {
  import opened Utf8
  import opened Errors
  import FixedInts
  import opened Encoding
  import opened Encoders
  import opened Encodables
  import Encode
  import opened Primitives
  import opened Combinators

  type Fixed = FixedInts.Fixed

  /// `i32`, `i64` and `u64` values (the `LE<i32>`, `LE<i64>`, `LE<u64>` fields).
  type I32 = n: Fixed | n.kind == FixedInts.Int32 witness FixedInts.FixedInt(FixedInts.Int32, 0)
  type I64 = n: Fixed | n.kind == FixedInts.Int64 witness FixedInts.FixedInt(FixedInts.Int64, 0)
  type U64 = n: Fixed | n.kind == FixedInts.UInt64 witness FixedInts.FixedInt(FixedInts.UInt64, 0)

  /// `[u8; 12]` and `[u8; 16]`.
  type Bytes12 = b: seq<u8> | |b| == 12 witness seq(12, _ => 0)
  type Bytes16 = b: seq<u8> | |b| == 16 witness seq(16, _ => 0)

  /// `BsonDocument`: its elements in order.
  datatype Document = Document(elements: seq<Element>)

  /// `BsonElement`: a name (`e_value`) and a value.
  datatype Element = Element(name: string, value: Variant)

  /// `BsonElementVariant` without `Double`.
  datatype Variant =
    | String(str: string)
    | Embedded(doc: Document)
    | Array(doc: Document)
    | Binary(subtype: u8, data: seq<u8>)
    | Undefined
    | ObjectId(id: Bytes12)
    | Bool(b: bool)
    | DateTime(millis: I64)
    | Null
    | Regex(pattern: string, options: string)
    | DBPointer(str: string, pointer: Bytes12)
    | JavaScriptCode(str: string)
    | Symbol(str: string)
    | CodeWithScope(str: string, doc: Document)
    | Int32(i: I32)
    | Timestamp(t: U64)
    | Int64(l: I64)
    | Decimal128(dec: Bytes16)
    | MinKey
    | MaxKey

  /// The largest `i32`.
  const Int32Max: nat := 0x7FFF_FFFF

  lemma Int32Range()
    ensures FixedInts.Max(FixedInts.Int32) == Int32Max
    ensures FixedInts.Min(FixedInts.Int32) < 0
  {
    FixedInts.Ranges();
  }

  /// `LE::<i32>::try_from(n)` once it is known to fit.
  function LE32(n: nat): (f: I32)
    requires n <= Int32Max
    ensures f.value == n
  {
    Int32Range();
    FixedInts.FixedInt(FixedInts.Int32, n)
  }

  // ---- The values the source builds ------------------------------------------

  /// `e_name`: `(&self.e_value, 0u8)`, the `cstring` of the name.
  function NameEnc(name: string): Encodable
  {
    Tuple([Str(name), Byte(0)])
  }

  /// `BsonString(x)`: a `LengthPrefix` with an `LE<i32>` length over
  /// `(x, 0u8)` (`examples/bson.rs:202-205`).
  function StringEnc(s: string): Encodable
  {
    LengthPrefix(Tuple([Str(s), Byte(0)]), LenLE(FixedInts.Int32))
  }

  /// The type tag and the name, as a tuple.
  function Head(tag: FixedInts.i8, name: string): Encodable
  {
    Tuple([SignedByte(tag), NameEnc(name)])
  }

  /// A self-sized value (`examples/bson.rs:82-84`, `177-179`): the size of
  /// `body` is counted first — its error is returned before anything is
  /// written — then the size plus the four bytes of the field itself is
  /// narrowed to `i32` and written little-endian, then `body` is written.
  function SelfSized(body: Trace): (r: Trace)
    ensures r.stop.Fail? ==> r.chunks == []
    ensures r.stop.Pass? ==> body.stop.Pass? && |r.chunks| == |body.chunks| + 1 && r.chunks[1..] == body.chunks
  {
    if body.stop.Fail? then Failed(body.stop.error)
    else
      var total := |Output(body.chunks)| + 4;
      if total <= Int32Max then Then(Emit(Raw(FixedInts.ToLE(LE32(total)))), body)
      else Failed(TryFromIntError)
  }

  /// `BsonDocument::encode` (`examples/bson.rs:73-86`).
  function DocWrites(doc: Document, fixed: bool): Trace
    decreases doc, 2
  {
    SelfSized(BodyWrites(doc, fixed))
  }

  /// The document without its size: `(Iter::new(&self.e_list), FromError::new(0u8))`.
  function BodyWrites(doc: Document, fixed: bool): Trace
    decreases doc, 1
  {
    Then(ElementsWrites(doc.elements, fixed), Writes(FromError(Byte(0))))
  }

  function ElementsWrites(elements: seq<Element>, fixed: bool): Trace
    decreases elements, 0
  {
    if elements == [] then Done()
    else Then(ElementWrites(elements[0], fixed), ElementsWrites(elements[1..], fixed))
  }

  /// `BsonElement::encode` (`examples/bson.rs:129-189`): an element with a
  /// document inside it is written part by part, every other one as the
  /// tuple `ItemsAtOnce`. With `fixed` false, `JavaScriptCode` writes its
  /// code bare, as the source does; with `fixed` true it writes it as a BSON
  /// `string`.
  function ElementWrites(element: Element, fixed: bool): Trace
    decreases element, 4
  {
    if WrittenAtOnce(element.value) then Writes(Tuple(ItemsAtOnce(element.name, element.value, fixed)))
    else PartWrites(element, fixed)
  }

  /// Document, array and code-with-scope elements, written part by part,
  /// and a binary element whose length does not fit `i32`, which fails
  /// before writing anything.
  function PartWrites(element: Element, fixed: bool): Trace
    requires !WrittenAtOnce(element.value)
    decreases element, 3
  {
    var name := element.name;
    match element.value
    case Embedded(x) =>
      Then(Writes(SignedByte(3)), Then(Writes(NameEnc(name)), DocWrites(x, fixed)))
    case Array(x) =>
      Then(Writes(SignedByte(4)), Then(Writes(NameEnc(name)), DocWrites(x, fixed)))
    case CodeWithScope(x, y) =>
      Then(Writes(Head(15, name)), ScopeWrites(x, y, fixed))
    case _ => Failed(TryFromIntError)
  }

  /// The `code_w_s` of a code-with-scope element (`examples/bson.rs:172-180`):
  /// `(BsonString(x), y)` prefixed with its own size.
  function ScopeWrites(x: string, y: Document, fixed: bool): Trace
    decreases y, 4
  {
    SelfSized(ScopeContent(x, y, fixed))
  }

  /// The writes of the content `(BsonString(x), y)`.
  function ScopeContent(x: string, y: Document, fixed: bool): Trace
    decreases y, 3
  {
    Then(Writes(StringEnc(x)), Then(DocWrites(y, fixed), Done()))
  }

  /// The variants whose element is written as one tuple: all but those
  /// holding a document, and a binary one only once its length has been
  /// narrowed to `i32` (`examples/bson.rs:153-155`). The string, DBPointer
  /// and symbol elements are written in the source as consecutive
  /// `encode` calls, because their parts differ in error type; with the
  /// errors unified those calls perform the writes of one tuple and stop
  /// at the same failure (`BsonEncode.EncodeStringElement`,
  /// `BsonEncode.EncodePointerElement`, `BsonEncode.EncodeSymbolElement`).
  predicate WrittenAtOnce(v: Variant)
  {
    match v
    case Embedded(_) => false
    case Array(_) => false
    case CodeWithScope(_, _) => false
    case Binary(_, data) => |data| <= Int32Max
    case _ => true
  }

  /// The type byte as the `i8` literal the source writes.
  function SignedTag(v: Variant): FixedInts.i8
  {
    match v
    case String(_) => 2
    case Embedded(_) => 3
    case Array(_) => 4
    case Binary(_, _) => 5
    case Undefined => 6
    case ObjectId(_) => 7
    case Bool(_) => 8
    case DateTime(_) => 9
    case Null => 10
    case Regex(_, _) => 11
    case DBPointer(_, _) => 12
    case JavaScriptCode(_) => 13
    case Symbol(_) => 14
    case CodeWithScope(_, _) => 15
    case Int32(_) => 16
    case Timestamp(_) => 17
    case Int64(_) => 18
    case Decimal128(_) => 19
    case MinKey => -1
    case MaxKey => 127
  }

  /// The tuple of an element written at once: `(tag, e_name, payload...)`.
  function ItemsAtOnce(name: string, v: Variant, fixed: bool): seq<Encodable>
    requires WrittenAtOnce(v)
  {
    [SignedByte(SignedTag(v)), NameEnc(name)] + PayloadItems(v, fixed)
  }

  /// The members of that tuple after the name.
  function PayloadItems(v: Variant, fixed: bool): seq<Encodable>
    requires WrittenAtOnce(v)
  {
    match v
    case String(x) => [StringEnc(x)]
    case Binary(subtype, data) => [LE(LE32(|data|)), Byte(subtype), Bytes(data)]
    case ObjectId(x) => [Bytes(x)]
    case Bool(x) => [Boolean(x)]
    case DateTime(x) => [LE(x)]
    case Regex(x, y) => [Str(x), Byte(0), Str(y), Byte(0)]
    case DBPointer(x, y) => [StringEnc(x), Bytes(y)]
    case JavaScriptCode(x) => if fixed then [StringEnc(x)] else [Str(x)]
    case Symbol(x) => [StringEnc(x)]
    case Int32(x) => [LE(x)]
    case Timestamp(x) => [LE(x)]
    case Int64(x) => [LE(x)]
    case Decimal128(x) => [Bytes(x)]
    case _ => []
  }

  // ---- The BSON 1.1 grammar ---------------------------------------------------

  /// The bytes a trace produces, or its error.
  function Produced(t: Trace): Result<seq<u8>>
  {
    if t.stop.Fail? then Err(t.stop.error) else Ok(Output(t.chunks))
  }

  /// Two parts one after the other; the first error wins.
  function Cat(a: Result<seq<u8>>, b: Result<seq<u8>>): Result<seq<u8>>
  {
    if a.Err? then a else if b.Err? then b else Ok(a.value + b.value)
  }

  /// The element type byte of the grammar: 0x02 to 0x13, 0xFF for MinKey,
  /// 0x7F for MaxKey.
  function Tag(v: Variant): u8
  {
    match v
    case String(_) => 0x02
    case Embedded(_) => 0x03
    case Array(_) => 0x04
    case Binary(_, _) => 0x05
    case Undefined => 0x06
    case ObjectId(_) => 0x07
    case Bool(_) => 0x08
    case DateTime(_) => 0x09
    case Null => 0x0A
    case Regex(_, _) => 0x0B
    case DBPointer(_, _) => 0x0C
    case JavaScriptCode(_) => 0x0D
    case Symbol(_) => 0x0E
    case CodeWithScope(_, _) => 0x0F
    case Int32(_) => 0x10
    case Timestamp(_) => 0x11
    case Int64(_) => 0x12
    case Decimal128(_) => 0x13
    case MinKey => 0xFF
    case MaxKey => 0x7F
  }

  /// `cstring ::= (byte*) "\x00"`, whose bytes BSON 1.1 requires to hold no
  /// 0x00. The encoder writes a name's bytes and then 0x00 whatever the name
  /// holds, and so does this definition: `NoNul` states the requirement,
  /// `CStringReadsBack` what breaks without it.
  function CString(s: string): seq<u8>
  {
    Utf8.Encode(s) + [0]
  }

  /// A string that may stand in a `cstring`: no U+0000, hence no 0x00 byte.
  predicate NoNul(s: string)
  {
    forall i :: 0 <= i < |s| ==> s[i] != '\0'
  }

  /// How a reader takes a `cstring` off the front of its input: the bytes
  /// before the first 0x00 and what follows that 0x00; `None` when no 0x00
  /// is left.
  function ReadCString(b: seq<u8>): Option<(seq<u8>, seq<u8>)>
  {
    if b == [] then None
    else if b[0] == 0 then Some(([], b[1..]))
    else match ReadCString(b[1..])
      case None => None
      case Some((n, rest)) => Some(([b[0]] + n, rest))
  }

  /// An int32 that counts itself and what follows it; too large a count is
  /// an error.
  function Sized(body: Result<seq<u8>>): Result<seq<u8>>
  {
    if body.Err? then body
    else if |body.value| + 4 <= Int32Max then Ok(FixedInts.ToLE(LE32(|body.value| + 4)) + body.value)
    else Err(TryFromIntError)
  }

  /// `string ::= int32 (byte*) "\x00"`, the int32 counting the bytes and
  /// the terminator.
  function StringBytes(s: string): Result<seq<u8>>
  {
    var b := CString(s);
    if |b| <= Int32Max then Ok(FixedInts.ToLE(LE32(|b|)) + b) else Err(TryFromIntError)
  }

  /// `document ::= int32 e_list "\x00"`.
  function DocBytes(doc: Document): Result<seq<u8>>
    decreases doc, 1
  {
    Sized(Cat(ListBytes(doc.elements), Ok([0])))
  }

  function ListBytes(elements: seq<Element>): Result<seq<u8>>
    decreases elements, 0
  {
    if elements == [] then Ok([])
    else Cat(ElementBytes(elements[0]), ListBytes(elements[1..]))
  }

  /// `element ::= tag e_name payload`.
  function ElementBytes(element: Element): Result<seq<u8>>
    decreases element, 2
  {
    Cat(Ok([Tag(element.value)] + CString(element.name)), PayloadBytes(element.value))
  }

  /// The payload of each element type, as the grammar gives it.
  function PayloadBytes(v: Variant): Result<seq<u8>>
    decreases v, 1
  {
    match v
    case String(x) => StringBytes(x)
    case Embedded(x) => DocBytes(x)
    case Array(x) => DocBytes(x)
    case Binary(subtype, data) =>
      if |data| <= Int32Max then Ok(FixedInts.ToLE(LE32(|data|)) + [subtype] + data)
      else Err(TryFromIntError)
    case Undefined => Ok([])
    case ObjectId(x) => Ok(x)
    case Bool(x) => Ok(if x then [1] else [0])
    case DateTime(x) => Ok(FixedInts.ToLE(x))
    case Null => Ok([])
    case Regex(x, y) => Ok(CString(x) + CString(y))
    case DBPointer(x, y) => Cat(StringBytes(x), Ok(y))
    case JavaScriptCode(x) => StringBytes(x)
    case Symbol(x) => StringBytes(x)
    case CodeWithScope(x, y) => Sized(Cat(StringBytes(x), DocBytes(y)))
    case Int32(x) => Ok(FixedInts.ToLE(x))
    case Timestamp(x) => Ok(FixedInts.ToLE(x))
    case Int64(x) => Ok(FixedInts.ToLE(x))
    case Decimal128(x) => Ok(x)
    case MinKey => Ok([])
    case MaxKey => Ok([])
  }

  /// A document with no `JavaScriptCode` element at any depth.
  predicate NoCode(doc: Document)
    decreases doc, 1
  {
    forall i :: 0 <= i < |doc.elements| ==> NoCodeIn(doc.elements[i])
  }

  predicate NoCodeIn(element: Element)
    decreases element, 0
  {
    match element.value
    case JavaScriptCode(_) => false
    case Embedded(x) => NoCode(x)
    case Array(x) => NoCode(x)
    case CodeWithScope(_, y) => NoCode(y)
    case _ => true
  }

  /// A document whose names, at every depth, and whose regular expressions
  /// hold no U+0000: the documents whose `cstring`s are BSON 1.1's.
  predicate NulFree(doc: Document)
    decreases doc, 1
  {
    forall i :: 0 <= i < |doc.elements| ==> NulFreeIn(doc.elements[i])
  }

  predicate NulFreeIn(element: Element)
    decreases element, 0
  {
    NoNul(element.name) &&
    match element.value
    case Regex(x, y) => NoNul(x) && NoNul(y)
    case Embedded(x) => NulFree(x)
    case Array(x) => NulFree(x)
    case CodeWithScope(_, y) => NulFree(y)
    case _ => true
  }

  // ---- From writes to bytes -------------------------------------------------------

  lemma ProducedThen(p: Trace, q: Trace)
    ensures Produced(Then(p, q)) == Cat(Produced(p), Produced(q))
  {
    if p.stop.Pass? {
      OutputAppend(p.chunks, q.chunks);
    }
  }

  lemma CatAssociative(a: Result<seq<u8>>, b: Result<seq<u8>>, c: Result<seq<u8>>)
    ensures Cat(Cat(a, b), c) == Cat(a, Cat(b, c))
  {
    if a.Ok? && b.Ok? && c.Ok? {
      assert (a.value + b.value) + c.value == a.value + (b.value + c.value);
    }
  }

  lemma CatEmpty(a: Result<seq<u8>>)
    ensures Cat(a, Ok([])) == a
  {
    if a.Ok? {
      assert a.value + [] == a.value;
    }
  }

  /// A tuple writes its first member, then the rest as a tuple.
  lemma TupleCons(items: seq<Encodable>)
    requires items != []
    ensures Produced(Writes(Tuple(items))) == Cat(Encoded(items[0]), Produced(Writes(Tuple(items[1..]))))
  {
    ProducedThen(Writes(items[0]), WritesAll(items[1..]));
  }

  /// `e_name` writes the name's `cstring`.
  lemma NameBytes(name: string)
    ensures Encoded(NameEnc(name)) == Ok(CString(name))
  {
    StrEncoding(name);
    ByteEncoding(0);
    PairConcat(Str(name), Byte(0));
  }

  /// The type byte and the name.
  lemma HeadBytes(tag: FixedInts.i8, name: string)
    ensures Produced(Writes(Head(tag, name))) == Ok([FixedInts.ByteOf(tag)] + CString(name))
  {
    SignedByteEncoding(tag);
    NameBytes(name);
    PairConcat(SignedByte(tag), NameEnc(name));
  }

  /// Members split anywhere: the tuple writes the first part, then the
  /// second.
  lemma {:induction false} TupleAppend(a: seq<Encodable>, b: seq<Encodable>)
    ensures Produced(Writes(Tuple(a + b))) == Cat(Produced(Writes(Tuple(a))), Produced(Writes(Tuple(b))))
  {
    if a == [] {
      assert a + b == b;
      var q := Produced(Writes(Tuple(b)));
      if q.Ok? {
        assert [] + q.value == q.value;
      }
    } else {
      assert (a + b)[0] == a[0];
      assert (a + b)[1..] == a[1..] + b;
      TupleCons(a + b);
      TupleAppend(a[1..], b);
      TupleCons(a);
      CatAssociative(Encoded(a[0]), Produced(Writes(Tuple(a[1..]))), Produced(Writes(Tuple(b))));
    }
  }

  /// A one-member tuple writes as its member.
  lemma Single(e: Encodable)
    ensures Produced(Writes(Tuple([e]))) == Encoded(e)
  {
    TupleCons([e]);
    assert [e][1..] == [];
    CatEmpty(Encoded(e));
  }

  /// `BsonString(x)` writes the grammar's `string`.
  lemma StringMatches(x: string)
    ensures Encoded(StringEnc(x)) == StringBytes(x)
  {
    var t := Writes(Tuple([Str(x), Byte(0)]));
    assert Writes(StringEnc(x)) == PrefixWrites(t, LenLE(FixedInts.Int32));
    NameBytes(x);
    Int32Range();
    assert Produced(t) == Ok(CString(x));
    if |CString(x)| <= Int32Max {
      var n := LE32(|CString(x)|);
      assert Narrow(LenLE(FixedInts.Int32), |Output(t.chunks)|) == Ok(LE(n));
      ProducedThen(LeafWrites(LE(n)), t);
      LEEncoding(n);
    }
  }

  /// A self-sized value produces the grammar's int32-prefixed form.
  lemma SelfSizedMatches(body: Trace)
    ensures Produced(SelfSized(body)) == Sized(Produced(body))
  {
    if body.stop.Pass? && |Output(body.chunks)| + 4 <= Int32Max {
      var n := LE32(|Output(body.chunks)| + 4);
      ProducedThen(Emit(Raw(FixedInts.ToLE(n))), body);
      EncodedOfEmit(LE(n), Raw(FixedInts.ToLE(n)));
    }
  }

  /// A value followed by a byte.
  lemma ThenByte(e: Encodable, b: u8)
    requires Encoded(e).Ok?
    ensures Produced(Writes(Tuple([e, Byte(b)]))) == Ok(Encoded(e).value + [b])
  {
    ByteEncoding(b);
    PairConcat(e, Byte(b));
  }

  /// The tag and name written one after the other, then a payload.
  lemma TagNameThen(tag: FixedInts.i8, name: string, payload: Trace)
    ensures Produced(Then(Writes(SignedByte(tag)), Then(Writes(NameEnc(name)), payload)))
      == Cat(Ok([FixedInts.ByteOf(tag)] + CString(name)), Produced(payload))
  {
    ProducedThen(Writes(SignedByte(tag)), Then(Writes(NameEnc(name)), payload));
    ProducedThen(Writes(NameEnc(name)), payload);
    SignedByteEncoding(tag);
    NameBytes(name);
    CatAssociative(Ok([FixedInts.ByteOf(tag)]), Ok(CString(name)), Produced(payload));
  }

  /// The tag and name written as one tuple, then a payload.
  lemma HeadThen(tag: FixedInts.i8, name: string, payload: Trace)
    ensures Produced(Then(Writes(Head(tag, name)), payload))
      == Cat(Ok([FixedInts.ByteOf(tag)] + CString(name)), Produced(payload))
  {
    ProducedThen(Writes(Head(tag, name)), payload);
    HeadBytes(tag, name);
  }

  /// A `code_w_s` value: the int32 total, the code as a `string`, the scope.
  lemma ScopeMatches(x: string, y: Document, fixed: bool)
    requires Produced(DocWrites(y, fixed)) == DocBytes(y)
    ensures Produced(ScopeWrites(x, y, fixed)) == Sized(Cat(StringBytes(x), DocBytes(y)))
  {
    var inner := Then(DocWrites(y, fixed), Done());
    ProducedThen(DocWrites(y, fixed), Done());
    assert Produced(Done()) == Ok([]);
    CatEmpty(DocBytes(y));
    ProducedThen(Writes(StringEnc(x)), inner);
    StringMatches(x);
    SelfSizedMatches(Then(Writes(StringEnc(x)), inner));
  }

  /// The `i8` tag writes the grammar's type byte.
  /// The binary payload: the data length, the subtype, the data.
  lemma BinaryPayload(subtype: u8, data: seq<u8>, fixed: bool)
    requires |data| <= Int32Max
    ensures Produced(Writes(Tuple(PayloadItems(Binary(subtype, data), fixed)))) == PayloadBytes(Binary(subtype, data))
  {
    var n := LE32(|data|);
    assert PayloadItems(Binary(subtype, data), fixed) == [LE(n), Byte(subtype), Bytes(data)];
    LEEncoding(n);
    ByteEncoding(subtype);
    BytesEncoding(data);
    TripleConcat(LE(n), Byte(subtype), Bytes(data));
  }

  /// The regular-expression payload: two `cstring`s.
  lemma RegexPayload(x: string, y: string, fixed: bool)
    ensures Produced(Writes(Tuple(PayloadItems(Regex(x, y), fixed)))) == PayloadBytes(Regex(x, y))
  {
    var first, second := [Str(x), Byte(0)], [Str(y), Byte(0)];
    assert PayloadItems(Regex(x, y), fixed) == first + second;
    TupleAppend(first, second);
    StrEncoding(x);
    StrEncoding(y);
    ThenByte(Str(x), 0);
    ThenByte(Str(y), 0);
  }

  /// The payload of a one-member tuple.
  lemma SinglePayload(v: Variant, e: Encodable, fixed: bool)
    requires WrittenAtOnce(v) && PayloadItems(v, fixed) == [e] && Encoded(e) == PayloadBytes(v)
    ensures Produced(Writes(Tuple(PayloadItems(v, fixed)))) == PayloadBytes(v)
  {
    Single(e);
  }

  /// The payloads of one value: a number, a flag, twelve or sixteen bytes.
  lemma ScalarPayload(v: Variant, fixed: bool)
    requires v.ObjectId? || v.Bool? || v.DateTime? || v.Int32? || v.Timestamp? || v.Int64? || v.Decimal128?
    ensures Produced(Writes(Tuple(PayloadItems(v, fixed)))) == PayloadBytes(v)
  {
    match v
    case ObjectId(x) => BytesEncoding(x); SinglePayload(v, Bytes(x), fixed);
    case Bool(x) => BooleanEncoding(x); SinglePayload(v, Boolean(x), fixed);
    case DateTime(x) => LEEncoding(x); SinglePayload(v, LE(x), fixed);
    case Int32(x) => LEEncoding(x); SinglePayload(v, LE(x), fixed);
    case Timestamp(x) => LEEncoding(x); SinglePayload(v, LE(x), fixed);
    case Int64(x) => LEEncoding(x); SinglePayload(v, LE(x), fixed);
    case Decimal128(x) => BytesEncoding(x); SinglePayload(v, Bytes(x), fixed);
  }

  /// The payloads that are one BSON `string`.
  lemma StringPayload(v: Variant, fixed: bool)
    requires v.String? || v.Symbol? || (fixed && v.JavaScriptCode?)
    ensures Produced(Writes(Tuple(PayloadItems(v, fixed)))) == PayloadBytes(v)
  {
    StringMatches(v.str);
    SinglePayload(v, StringEnc(v.str), fixed);
  }

  /// The DBPointer payload: a `string` and twelve bytes.
  lemma PointerPayload(x: string, y: Bytes12, fixed: bool)
    ensures Produced(Writes(Tuple(PayloadItems(DBPointer(x, y), fixed)))) == PayloadBytes(DBPointer(x, y))
  {
    assert PayloadItems(DBPointer(x, y), fixed) == [StringEnc(x)] + [Bytes(y)];
    TupleAppend([StringEnc(x)], [Bytes(y)]);
    Single(StringEnc(x));
    Single(Bytes(y));
    StringMatches(x);
    BytesEncoding(y);
  }

  /// Every payload written inside the element's tuple is the grammar's.
  lemma PayloadMatches(v: Variant, fixed: bool)
    requires WrittenAtOnce(v) && (fixed || !v.JavaScriptCode?)
    ensures Produced(Writes(Tuple(PayloadItems(v, fixed)))) == PayloadBytes(v)
  {
    match v
    case Binary(subtype, data) => BinaryPayload(subtype, data, fixed);
    case Regex(x, y) => RegexPayload(x, y, fixed);
    case DBPointer(x, y) => PointerPayload(x, y, fixed);
    case String(_) => StringPayload(v, fixed);
    case Symbol(_) => StringPayload(v, fixed);
    case JavaScriptCode(_) => StringPayload(v, fixed);
    case Undefined =>
    case Null =>
    case MinKey =>
    case MaxKey =>
    case _ => ScalarPayload(v, fixed);
  }

  /// The `i8` tags have the grammar's type bytes as their bit patterns:
  /// 0x02..0x13 for the modelled variants, 0xFF for MinKey, 0x7F for MaxKey.
  lemma TagMatches(v: Variant)
    ensures FixedInts.ByteOf(SignedTag(v)) == Tag(v)
  {
  }

  /// An element written as one tuple has the grammar's bytes.
  lemma AtOnceMatches(name: string, v: Variant, fixed: bool)
    requires WrittenAtOnce(v) && (fixed || !v.JavaScriptCode?)
    ensures Produced(Writes(Tuple(ItemsAtOnce(name, v, fixed)))) == ElementBytes(Element(name, v))
  {
    TupleAppend([SignedByte(SignedTag(v)), NameEnc(name)], PayloadItems(v, fixed));
    HeadBytes(SignedTag(v), name);
    TagMatches(v);
    PayloadMatches(v, fixed);
  }

  /// The document's closing `0u8`, wrapped in `FromError`.
  lemma TerminatorBytes()
    ensures Produced(Writes(FromError(Byte(0)))) == Ok([0])
  {
    ByteEncoding(0);
    assert Writes(FromError(Byte(0))) == Writes(Byte(0));
  }

  /// A document's bytes from its elements' bytes: the closing zero is
  /// appended and the whole is prefixed with its own size.
  lemma DocOfElements(doc: Document, fixed: bool)
    ensures Produced(DocWrites(doc, fixed)) == Sized(Cat(Produced(ElementsWrites(doc.elements, fixed)), Ok([0])))
  {
    ProducedThen(ElementsWrites(doc.elements, fixed), Writes(FromError(Byte(0))));
    TerminatorBytes();
    SelfSizedMatches(BodyWrites(doc, fixed));
  }

  /// An element with no document inside it has the grammar's bytes.
  lemma FlatElementMatches(element: Element, fixed: bool)
    requires !element.value.Embedded? && !element.value.Array? && !element.value.CodeWithScope?
    requires fixed || NoCodeIn(element)
    ensures Produced(ElementWrites(element, fixed)) == ElementBytes(element)
  {
    var name := element.name;
    match element.value
    case Binary(_, data) =>
      if |data| <= Int32Max {
        AtOnceMatches(name, element.value, fixed);
      }
    case _ => AtOnceMatches(name, element.value, fixed);
  }

  /// An embedded document element, given its document's bytes.
  lemma EmbeddedElementMatches(name: string, x: Document, fixed: bool)
    requires Produced(DocWrites(x, fixed)) == DocBytes(x)
    ensures Produced(ElementWrites(Element(name, Embedded(x)), fixed)) == ElementBytes(Element(name, Embedded(x)))
  {
    EmbeddedElementUnfolds(name, x, fixed);
    TagNameThen(3, name, DocWrites(x, fixed));
  }

  lemma EmbeddedElementUnfolds(name: string, x: Document, fixed: bool)
    ensures ElementWrites(Element(name, Embedded(x)), fixed) == Then(Writes(SignedByte(3)), Then(Writes(NameEnc(name)), DocWrites(x, fixed)))
    ensures ElementBytes(Element(name, Embedded(x))) == Cat(Ok([0x03] + CString(name)), DocBytes(x))
  {
  }

  /// An array element, given its document's bytes.
  lemma ArrayElementMatches(name: string, x: Document, fixed: bool)
    requires Produced(DocWrites(x, fixed)) == DocBytes(x)
    ensures Produced(ElementWrites(Element(name, Array(x)), fixed)) == ElementBytes(Element(name, Array(x)))
  {
    ArrayElementUnfolds(name, x, fixed);
    TagNameThen(4, name, DocWrites(x, fixed));
  }

  lemma ArrayElementUnfolds(name: string, x: Document, fixed: bool)
    ensures ElementWrites(Element(name, Array(x)), fixed) == Then(Writes(SignedByte(4)), Then(Writes(NameEnc(name)), DocWrites(x, fixed)))
    ensures ElementBytes(Element(name, Array(x))) == Cat(Ok([0x04] + CString(name)), DocBytes(x))
  {
    assert !WrittenAtOnce(Array(x));
  }

  /// What a code-with-scope element writes.
  lemma ScopeElementWrites(name: string, x: string, y: Document, fixed: bool)
    ensures ElementWrites(Element(name, CodeWithScope(x, y)), fixed) == Then(Writes(Head(15, name)), ScopeWrites(x, y, fixed))
  {
  }

  /// The grammar's bytes of a code-with-scope element.
  lemma ScopeElementBytes(name: string, x: string, y: Document)
    ensures ElementBytes(Element(name, CodeWithScope(x, y))) == Cat(Ok([0x0F] + CString(name)), Sized(Cat(StringBytes(x), DocBytes(y))))
  {
  }

  /// A code-with-scope element, given its scope's bytes.
  lemma ScopeElementMatches(name: string, x: string, y: Document, fixed: bool)
    requires Produced(DocWrites(y, fixed)) == DocBytes(y)
    ensures Produced(ElementWrites(Element(name, CodeWithScope(x, y)), fixed)) == ElementBytes(Element(name, CodeWithScope(x, y)))
  {
    ScopeElementWrites(name, x, y, fixed);
    ScopeElementBytes(name, x, y);
    ScopeMatches(x, y, fixed);
    HeadThen(15, name, ScopeWrites(x, y, fixed));
  }

  /// Every document the encoder writes has the bytes the BSON 1.1 grammar
  /// gives it — provided it holds no `JavaScriptCode` element, or the
  /// corrected code encoding is used (see `BareCodeIsAmbiguous`).
  lemma {:induction false} DocMatches(doc: Document, fixed: bool)
    requires fixed || NoCode(doc)
    ensures Produced(DocWrites(doc, fixed)) == DocBytes(doc)
    decreases doc, 2
  {
    ElementsMatch(doc.elements, fixed);
    DocOfElements(doc, fixed);
  }

  lemma {:induction false} ElementsMatch(elements: seq<Element>, fixed: bool)
    requires fixed || forall i :: 0 <= i < |elements| ==> NoCodeIn(elements[i])
    ensures Produced(ElementsWrites(elements, fixed)) == ListBytes(elements)
    decreases elements, 1
  {
    if elements != [] {
      ElementMatches(elements[0], fixed);
      assert forall i :: 0 <= i < |elements[1..]| ==> elements[1..][i] == elements[i + 1];
      ElementsMatch(elements[1..], fixed);
      ProducedThen(ElementWrites(elements[0], fixed), ElementsWrites(elements[1..], fixed));
    }
  }

  lemma {:induction false} ElementMatches(element: Element, fixed: bool)
    requires fixed || NoCodeIn(element)
    ensures Produced(ElementWrites(element, fixed)) == ElementBytes(element)
    decreases element, 0
  {
    var name := element.name;
    match element.value
    case Embedded(x) =>
      DocMatches(x, fixed);
      EmbeddedElementMatches(name, x, fixed);
    case Array(x) =>
      DocMatches(x, fixed);
      ArrayElementMatches(name, x, fixed);
    case CodeWithScope(x, y) =>
      DocMatches(y, fixed);
      ScopeElementMatches(name, x, y, fixed);
    case _ => FlatElementMatches(element, fixed);
  }

  // ---- Framing and the all-or-nothing document ----------------------------------

  /// A sized value starts with its own total length as a little-endian
  /// int32, followed by the value.
  lemma SizedFraming(body: Result<seq<u8>>)
    requires Sized(body).Ok?
    ensures var out := Sized(body).value;
      |out| >= 4 && FixedInts.FromLEBytes(out[..4]) == |out| && out[4..] == body.value
  {
    var n := LE32(|body.value| + 4);
    LEEncoding(n);
    SmallReadsBack(n);
    var out := FixedInts.ToLE(n) + body.value;
    assert out[..4] == FixedInts.ToLE(n) && out[4..] == body.value;
  }

  /// Every document the encoder writes — with the source's code encoding
  /// or the corrected one — begins with its own length and ends with the
  /// zero byte (`examples/bson.rs:82-85`).
  lemma DocFraming(doc: Document, fixed: bool)
    requires Produced(DocWrites(doc, fixed)).Ok?
    ensures var out := Produced(DocWrites(doc, fixed)).value;
      |out| >= 5 && FixedInts.FromLEBytes(out[..4]) == |out| && out[|out| - 1] == 0
  {
    DocOfElements(doc, fixed);
    var body := Cat(Produced(ElementsWrites(doc.elements, fixed)), Ok([0]));
    SizedFraming(body);
    var out := Sized(body).value;
    assert out[|out| - 1] == out[4..][|out| - 5];
  }

  /// A document whose own encoding fails, with its body's error or with
  /// `TooLarge`, writes nothing and leaves every encoder as it was: its size
  /// is counted, and narrowed to `i32`, before its first byte is written. An
  /// encoder that fails part-way through (a `&mut [u8]` that runs out) can
  /// still be left holding the bytes written before that write.
  lemma DocAllOrNothing(doc: Document, fixed: bool, s: Sink)
    requires CanTake(s, DocWrites(doc, fixed).chunks)
    ensures DocWrites(doc, fixed).stop.Fail? ==> DocWrites(doc, fixed).chunks == []
    ensures DocWrites(doc, fixed).stop.Fail? ==> Run(s, DocWrites(doc, fixed)) == Step(s, DocWrites(doc, fixed).stop)
    ensures DocWrites(doc, fixed).stop.Fail? ==> Produced(DocWrites(doc, fixed)) == Produced(BodyWrites(doc, fixed)) || Produced(DocWrites(doc, fixed)) == Err(TryFromIntError)
  {
  }

  /// A document whose body, with its four size bytes, exceeds `i32::MAX`
  /// fails with `TooLarge` and writes nothing.
  lemma DocTooLarge(doc: Document, fixed: bool)
    requires BodyWrites(doc, fixed).stop.Pass?
    requires |Output(BodyWrites(doc, fixed).chunks)| + 4 > Int32Max
    ensures DocWrites(doc, fixed) == Failed(TryFromIntError)
  {
  }

  // ---- The `{"hello": "world"}` example (`examples/bson.rs:258-272`) ----------------

  const Hello: string := "hello"
  const World: string := "world"

  /// A small count as four little-endian bytes.
  lemma SmallLE32(n: nat)
    requires n < 256
    ensures FixedInts.ToLE(LE32(n)) == [n as u8, 0, 0, 0]
  {
    var f := LE32(n);
    assert FixedInts.Width(f.kind) == 4;
    assert FixedInts.Bits(f) == n;
    assert FixedInts.LEBytes(1, 0) == [0] + FixedInts.LEBytes(0, 0);
    assert FixedInts.LEBytes(2, 0) == [0] + FixedInts.LEBytes(1, 0);
    assert FixedInts.LEBytes(3, 0) == [0] + FixedInts.LEBytes(2, 0);
    assert FixedInts.LEBytes(4, n) == [n as u8] + FixedInts.LEBytes(3, 0);
  }

  /// An ASCII string's UTF-8 bytes, given byte by byte.
  lemma AsciiBytes(s: string, b: seq<u8>)
    requires |s| == |b| && forall i :: 0 <= i < |s| ==> s[i] as int < 0x80 && b[i] as int == s[i] as int
    ensures Utf8.Encode(s) == b
  {
    EncodeAscii(s);
  }

  /// A string element, when its text fits a BSON `string`: its tag, its
  /// name, and the text as a `string`.
  lemma StringElementBytes(name: string, text: string)
    requires |CString(text)| <= Int32Max
    ensures Produced(ElementWrites(Element(name, String(text)), false))
      == Ok([0x02] + CString(name) + (FixedInts.ToLE(LE32(|CString(text)|)) + CString(text)))
  {
    AtOnceMatches(name, String(text), false);
    StringElementUnfolds(name, text);
  }

  lemma StringElementUnfolds(name: string, text: string)
    requires |CString(text)| <= Int32Max
    ensures ElementWrites(Element(name, String(text)), false) == Writes(Tuple(ItemsAtOnce(name, String(text), false)))
    ensures ElementBytes(Element(name, String(text)))
      == Ok([0x02] + CString(name) + (FixedInts.ToLE(LE32(|CString(text)|)) + CString(text)))
  {
  }

  /// A list's bytes followed by the closing zero.
  lemma Terminated(written: Result<seq<u8>>, body: seq<u8>)
    requires written.Ok? && body == written.value + [0]
    ensures Cat(written, Ok([0])) == Ok(body)
  {
  }

  /// A short body is framed by its length.
  lemma SizedSmall(body: seq<u8>)
    requires |body| + 4 <= Int32Max
    ensures Sized(Ok(body)) == Ok(FixedInts.ToLE(LE32(|body| + 4)) + body)
  {
  }

  /// A document of one string element, when both strings are short.
  lemma OneStringDoc(name: string, text: string, body: seq<u8>)
    requires |CString(name)| + |CString(text)| < 240
    requires body == [0x02] + CString(name) + (FixedInts.ToLE(LE32(|CString(text)|)) + CString(text)) + [0]
    ensures Produced(DocWrites(Document([Element(name, String(text))]), false))
      == Ok(FixedInts.ToLE(LE32(|body| + 4)) + body)
  {
    var element := Element(name, String(text));
    DocOfElements(Document([element]), false);
    OneElement(element, false);
    StringElementBytes(name, text);
    Terminated(Produced(ElementsWrites([element], false)), body);
    LEEncoding(LE32(|CString(text)|));
    SizedSmall(body);
  }

  lemma HelloBytes()
    ensures CString(Hello) == [0x68, 0x65, 0x6C, 0x6C, 0x6F, 0]
  {
    AsciiBytes(Hello, [0x68, 0x65, 0x6C, 0x6C, 0x6F]);
  }

  lemma WorldBytes()
    ensures CString(World) == [0x77, 0x6F, 0x72, 0x6C, 0x64, 0]
  {
    AsciiBytes(World, [0x77, 0x6F, 0x72, 0x6C, 0x64]);
  }

  lemma HelloWorldLayout(name: seq<u8>, len: seq<u8>, text: seq<u8>, body: seq<u8>)
    requires name == [0x68, 0x65, 0x6C, 0x6C, 0x6F, 0] && text == [0x77, 0x6F, 0x72, 0x6C, 0x64, 0]
    requires len == [6, 0, 0, 0] && body == [0x02] + name + (len + text) + [0]
    ensures body == [0x02, 0x68, 0x65, 0x6C, 0x6C, 0x6F, 0, 0x06, 0, 0, 0, 0x77, 0x6F, 0x72, 0x6C, 0x64, 0, 0]
  {
  }

  /// The bytes of the example's body.
  lemma HelloWorldBody(body: seq<u8>)
    requires body == [0x02] + CString(Hello) + (FixedInts.ToLE(LE32(|CString(World)|)) + CString(World)) + [0]
    ensures body == [0x02, 0x68, 0x65, 0x6C, 0x6C, 0x6F, 0, 0x06, 0, 0, 0, 0x77, 0x6F, 0x72, 0x6C, 0x64, 0, 0]
    ensures |CString(Hello)| + |CString(World)| == 12
  {
    HelloBytes();
    WorldBytes();
    SmallLE32(6);
    HelloWorldLayout(CString(Hello), FixedInts.ToLE(LE32(|CString(World)|)), CString(World), body);
  }

  /// The encoder writes `{"hello": "world"}` as the BSON specification's
  /// own example bytes.
  lemma HelloWorldExample()
    ensures Produced(DocWrites(Document([Element(Hello, String(World))]), false))
      == Ok([0x16, 0, 0, 0, 0x02, 0x68, 0x65, 0x6C, 0x6C, 0x6F, 0, 0x06, 0, 0, 0, 0x77, 0x6F, 0x72, 0x6C, 0x64, 0, 0])
  {
    var body := [0x02] + CString(Hello) + (FixedInts.ToLE(LE32(|CString(World)|)) + CString(World)) + [0];
    HelloWorldBody(body);
    OneStringDoc(Hello, World, body);
    SmallLE32(22);
    HelloWorldFrame(body);
  }

  lemma HelloWorldFrame(body: seq<u8>)
    requires body == [0x02, 0x68, 0x65, 0x6C, 0x6C, 0x6F, 0, 0x06, 0, 0, 0, 0x77, 0x6F, 0x72, 0x6C, 0x64, 0, 0]
    ensures [22 as u8, 0, 0, 0] + body
      == [0x16, 0, 0, 0, 0x02, 0x68, 0x65, 0x6C, 0x6C, 0x6F, 0, 0x06, 0, 0, 0, 0x77, 0x6F, 0x72, 0x6C, 0x64, 0, 0]
  {
  }

  // ---- Finding: bare JavaScript code (`examples/bson.rs:167`) -------------------

  /// As written, a `JavaScriptCode` element is its tag, its name and the
  /// UTF-8 of its code, with neither the int32 length nor the terminating
  /// zero of the grammar's `string`.
  lemma BareCodeElement(name: string, x: string)
    ensures Produced(ElementWrites(Element(name, JavaScriptCode(x)), false)) == Ok([0x0D] + CString(name) + Utf8.Encode(x))
  {
    var v := JavaScriptCode(x);
    assert PayloadItems(v, false) == [Str(x)];
    TupleAppend([SignedByte(13), NameEnc(name)], [Str(x)]);
    HeadBytes(13, name);
    Single(Str(x));
    StrEncoding(x);
  }

  /// A one-element list writes as its element.
  lemma OneElement(element: Element, fixed: bool)
    ensures Produced(ElementsWrites([element], fixed)) == Produced(ElementWrites(element, fixed))
  {
    assert [element][1..] == [];
    ProducedThen(ElementWrites(element, fixed), ElementsWrites([], fixed));
    CatEmpty(Produced(ElementWrites(element, fixed)));
  }

  /// The code `x`, then what reads as the tag of a null element (`'\n'`,
  /// 0x0A), the name `b` and its terminator.
  function Spoofed(x: string, b: string): string
  {
    x + ['\n'] + b + ['\0']
  }

  lemma SpoofedBytes(x: string, b: string)
    ensures Utf8.Encode(Spoofed(x, b)) == Utf8.Encode(x) + ([0x0A] + CString(b))
  {
    EncodeAppend(x + ['\n'] + b, ['\0']);
    EncodeAppend(x + ['\n'], b);
    EncodeAppend(x, ['\n']);
  }

  /// The writes of one code element holding `Spoofed(x, b)`.
  lemma SpoofedElements(name: string, x: string, b: string)
    ensures Produced(ElementsWrites([Element(name, JavaScriptCode(Spoofed(x, b)))], false))
      == Ok([0x0D] + CString(name) + Utf8.Encode(x) + ([0x0A] + CString(b)))
  {
    OneElement(Element(name, JavaScriptCode(Spoofed(x, b))), false);
    BareCodeElement(name, Spoofed(x, b));
    SpoofedBytes(x, b);
    Regroup([0x0D] + CString(name), Utf8.Encode(x), [0x0A] + CString(b));
  }

  /// A null element: its tag and its name.
  lemma NullElement(b: string, fixed: bool)
    ensures Produced(ElementWrites(Element(b, Null), fixed)) == Ok([0x0A] + CString(b))
  {
    FlatElementMatches(Element(b, Null), fixed);
    NullElementBytes(b);
    CatEmpty(Ok([0x0A] + CString(b)));
  }

  lemma NullElementBytes(b: string)
    ensures ElementBytes(Element(b, Null)) == Cat(Ok([0x0A] + CString(b)), Ok([]))
  {
  }

  /// Two elements write one after the other.
  lemma TwoElements(first: Element, second: Element, fixed: bool)
    ensures Produced(ElementsWrites([first, second], fixed))
      == Cat(Produced(ElementWrites(first, fixed)), Produced(ElementWrites(second, fixed)))
  {
    var es := [first, second];
    assert es[1..] == [second];
    ProducedThen(ElementWrites(first, fixed), ElementsWrites([second], fixed));
    OneElement(second, fixed);
  }

  /// The writes of a code element holding `x` followed by a null element
  /// named `b`.
  lemma CodeThenNullElements(name: string, x: string, b: string)
    ensures Produced(ElementsWrites([Element(name, JavaScriptCode(x)), Element(b, Null)], false))
      == Ok([0x0D] + CString(name) + Utf8.Encode(x) + ([0x0A] + CString(b)))
  {
    TwoElements(Element(name, JavaScriptCode(x)), Element(b, Null), false);
    BareCodeElement(name, x);
    NullElement(b, false);
  }

  /// As written, two different documents encode to the same bytes, so the
  /// encoding cannot be read back: a code element whose code ends in
  /// `"\nb\0"` is written exactly as the same element without those three
  /// characters followed by a null element named `b`.
  lemma BareCodeIsAmbiguous(name: string, x: string, b: string)
    ensures var one := Document([Element(name, JavaScriptCode(Spoofed(x, b)))]);
      var two := Document([Element(name, JavaScriptCode(x)), Element(b, Null)]);
      one != two && Produced(DocWrites(one, false)) == Produced(DocWrites(two, false))
  {
    var one := Document([Element(name, JavaScriptCode(Spoofed(x, b)))]);
    var two := Document([Element(name, JavaScriptCode(x)), Element(b, Null)]);
    assert |one.elements| != |two.elements|;
    DocOfElements(one, false);
    DocOfElements(two, false);
    SpoofedElements(name, x, b);
    CodeThenNullElements(name, x, b);
  }

  /// With the corrected encoding the code is a BSON `string`: its int32
  /// length counts the code's bytes and its terminator, so the code's end
  /// cannot be taken for another element.
  lemma CodeAsString(name: string, x: string)
    ensures Produced(ElementWrites(Element(name, JavaScriptCode(x)), true)) == Cat(Ok([0x0D] + CString(name)), StringBytes(x))
  {
    AtOnceMatches(name, JavaScriptCode(x), true);
  }

  // ---- Names holding U+0000 ------------------------------------------------------

  /// Bytes followed by 0x00 read back as themselves exactly when they hold
  /// no 0x00; otherwise the reader stops at their first 0x00.
  lemma {:induction false} ReadBytesThenZero(w: seq<u8>, rest: seq<u8>)
    ensures ReadCString(w + [0] + rest).Some?
    ensures ReadCString(w + [0] + rest) == Some((w, rest)) <==> forall i :: 0 <= i < |w| ==> w[i] != 0
    ensures ReadCString(w + [0] + rest).value.0 == w <==> forall i :: 0 <= i < |w| ==> w[i] != 0
  {
    if w != [] {
      assert (w + [0] + rest)[1..] == w[1..] + [0] + rest;
      ReadBytesThenZero(w[1..], rest);
      assert forall i :: 1 <= i < |w| ==> w[1..][i - 1] == w[i];
      if w[0] != 0 && ReadCString(w[1..] + [0] + rest) == Some((w[1..], rest)) {
        assert [w[0]] + w[1..] == w;
      }
    } else {
      assert w + [0] + rest == [0] + rest;
    }
  }

  /// A reader gets a string's bytes back out of its `cstring`, and finds the
  /// rest after it, exactly when the string holds no U+0000.
  lemma CStringReadsBack(s: string, rest: seq<u8>)
    ensures ReadCString(CString(s) + rest) == Some((Utf8.Encode(s), rest)) <==> NoNul(s)
  {
    ReadBytesThenZero(Utf8.Encode(s), rest);
    Utf8.EncodeZero(s);
  }

  /// The name a reader takes out of an element's bytes — the `cstring` after
  /// the type byte — is the element's name exactly when the name holds no
  /// U+0000.
  lemma ElementNameReadsBack(element: Element, fixed: bool)
    requires fixed || NoCodeIn(element)
    requires Produced(ElementWrites(element, fixed)).Ok?
    ensures var b := Produced(ElementWrites(element, fixed)).value;
      1 <= |b| && (ReadCString(b[1..]).Some? && ReadCString(b[1..]).value.0 == Utf8.Encode(element.name) <==> NoNul(element.name))
  {
    ElementMatches(element, fixed);
    ElementNameBytes(element);
    ReadBytesThenZero(Utf8.Encode(element.name), PayloadBytes(element.value).value);
    Utf8.EncodeZero(element.name);
  }

  /// After its type byte, an element's bytes are its name's `cstring` and
  /// its payload.
  lemma ElementNameBytes(element: Element)
    requires ElementBytes(element).Ok?
    ensures PayloadBytes(element.value).Ok?
    ensures var b := ElementBytes(element).value;
      1 <= |b| && b[1..] == Utf8.Encode(element.name) + [0] + PayloadBytes(element.value).value
  {
    var payload := PayloadBytes(element.value).value;
    var b := [Tag(element.value)] + CString(element.name) + payload;
    assert b[1..] == CString(element.name) + payload;
  }

  /// As written, a name holding U+0000 is ambiguous: a null element named
  /// `a` NUL LF `b` writes the same bytes as a null element named `a`
  /// followed by a null element named `b` (LF is the null type byte 0x0A).
  lemma NulNameIsAmbiguous(a: string, b: string, fixed: bool)
    ensures var one := Document([Element(a + ['\0', '\n'] + b, Null)]);
      var two := Document([Element(a, Null), Element(b, Null)]);
      one != two && NoCode(one) && NoCode(two) && !NulFree(one)
      && Produced(DocWrites(one, fixed)) == Produced(DocWrites(two, fixed))
  {
    NulNameDocuments(a, b);
    NulNameDocumentBytes(a, b, fixed);
  }

  lemma NulNameDocuments(a: string, b: string)
    ensures var one := Document([Element(a + ['\0', '\n'] + b, Null)]);
      var two := Document([Element(a, Null), Element(b, Null)]);
      one != two && NoCode(one) && NoCode(two) && !NulFree(one)
  {
    var name := a + ['\0', '\n'] + b;
    var one := Document([Element(name, Null)]);
    var two := Document([Element(a, Null), Element(b, Null)]);
    assert |one.elements| != |two.elements|;
    assert name[|a|] == '\0';
    assert !NulFreeIn(one.elements[0]);
  }

  lemma NulNameDocumentBytes(a: string, b: string, fixed: bool)
    ensures Produced(DocWrites(Document([Element(a + ['\0', '\n'] + b, Null)]), fixed))
      == Produced(DocWrites(Document([Element(a, Null), Element(b, Null)]), fixed))
  {
    DocOfElements(Document([Element(a + ['\0', '\n'] + b, Null)]), fixed);
    DocOfElements(Document([Element(a, Null), Element(b, Null)]), fixed);
    NulNameElements(a, b, fixed);
  }

  lemma NulNameElements(a: string, b: string, fixed: bool)
    ensures Produced(ElementsWrites([Element(a + ['\0', '\n'] + b, Null)], fixed))
      == Produced(ElementsWrites([Element(a, Null), Element(b, Null)], fixed))
  {
    var name := a + ['\0', '\n'] + b;
    OneElement(Element(name, Null), fixed);
    NullElement(name, fixed);
    TwoElements(Element(a, Null), Element(b, Null), fixed);
    NullElement(a, fixed);
    NullElement(b, fixed);
    NulNameBytes(a, b);
  }

  lemma NulNameBytes(a: string, b: string)
    ensures [0x0A] + CString(a + ['\0', '\n'] + b) == [0x0A] + CString(a) + ([0x0A] + CString(b))
  {
    NulNameEncode(a, b);
    NulNameSplit(Utf8.Encode(a), Utf8.Encode(b));
  }

  lemma NulNameEncode(a: string, b: string)
    ensures Utf8.Encode(a + ['\0', '\n'] + b) == Utf8.Encode(a) + [0, 0x0A] + Utf8.Encode(b)
  {
    var nul := ['\0', '\n'];
    EncodeAppend(a + nul, b);
    EncodeAppend(a, nul);
    assert Utf8.Encode(nul) == [0, 0x0A] by {
      assert nul[1..] == ['\n'] && nul[1..][1..] == [];
    }
  }

  lemma NulNameSplit(ea: seq<u8>, eb: seq<u8>)
    ensures [0x0A] + (ea + [0, 0x0A] + eb + [0]) == [0x0A] + (ea + [0]) + ([0x0A] + (eb + [0]))
  {
  }

}
