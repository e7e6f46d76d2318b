/// The `encode` methods of `examples/bson.rs` as methods that write into a
/// real encoder, each proved to perform exactly the writes the `Bson` module
/// gives for the value: documents and code-with-scope values are sized by a
/// counting pass over a fresh `SizeEncoder` before anything is written, and
/// the element kinds whose parts differ in error type are written by
/// consecutive `encode` calls.
module BsonEncode {
  import opened Utf8
  import opened Errors
  import FixedInts
  import opened Encoding
  import opened Encoders
  import opened Encodables
  import Encode
  import opened Bson

  // ---- Running a list of writes -------------------------------------------

  /// A tuple's writes split anywhere: the writes of a prefix, then those of
  /// the rest.
  lemma {:induction false} WritesAllAppend(a: seq<Encodable>, b: seq<Encodable>)
    ensures WritesAll(a + b) == Then(WritesAll(a), WritesAll(b))
    decreases |a|
  {
    if a == [] {
      assert a + b == b;
      ThenDone(WritesAll(b));
    } else {
      assert (a + b)[0] == a[0];
      assert (a + b)[1..] == a[1..] + b;
      WritesAllAppend(a[1..], b);
      ThenAssociative(Writes(a[0]), WritesAll(a[1..]), WritesAll(b));
    }
  }

  /// Nothing follows: `Then(p, Done())` is `p`, whether `p` fails or not.
  lemma ThenNothing(p: Trace)
    ensures Then(p, Done()) == p
  {
    ThenDone(p);
  }

  /// A one-member tuple writes as its member.
  lemma OneItem(e: Encodable)
    ensures WritesAll([e]) == Writes(e)
  {
    assert [e][1..] == [];
    ThenNothing(Writes(e));
  }

  /// Running the writes of `first + rest` on a byte sink runs `first`, and
  /// then `rest` from where `first` left the sink unless it failed.
  lemma RunSplit(s: Sink, first: seq<Encodable>, rest: seq<Encodable>)
    requires SinkValid(s) && !s.TextSink?
    ensures var st := Run(s, WritesAll(first));
      SinkValid(st.sink) && !st.sink.TextSink? &&
      Run(s, WritesAll(first + rest)) == if st.outcome.Fail? then st else Run(st.sink, WritesAll(rest))
  {
    WritesAllAppend(first, rest);
    RunThen(s, WritesAll(first), WritesAll(rest));
  }

  /// A trace that fails before writing leaves the sink as it was.
  lemma RunFailed(s: Sink, e: Error)
    requires SinkValid(s)
    ensures Run(s, Failed(e)) == Step(s, Fail(e))
  {
  }

  /// A run that ends with nothing left to write.
  lemma RunDone(s: Sink)
    requires SinkValid(s)
    ensures Run(s, WritesAll([])) == Step(s, Pass)
  {
  }

  /// A self-sized value whose body fails writes nothing and returns the
  /// body's error.
  lemma RunSizedBodyFails(s: Sink, body: Trace)
    requires SinkValid(s) && body.stop.Fail?
    ensures Run(s, SelfSized(body)) == Step(s, Fail(body.stop.error))
  {
  }

  /// A self-sized value too large for its `i32` size writes nothing.
  lemma RunSizedTooLarge(s: Sink, body: Trace)
    requires SinkValid(s) && body.stop.Pass? && |Output(body.chunks)| + 4 > Int32Max
    ensures Run(s, SelfSized(body)) == Step(s, Fail(TryFromIntError))
  {
  }

  /// Otherwise the size field is written, then the body.
  lemma RunSized(s: Sink, body: Trace)
    requires SinkValid(s) && !s.TextSink? && body.stop.Pass? && |Output(body.chunks)| + 4 <= Int32Max
    ensures var st := Run(s, LeafWrites(LE(LE32(|Output(body.chunks)| + 4))));
      SinkValid(st.sink) && !st.sink.TextSink? &&
      Run(s, SelfSized(body)) == if st.outcome.Fail? then st else Run(st.sink, body)
  {
    var size := Emit(Raw(FixedInts.ToLE(LE32(|Output(body.chunks)| + 4))));
    RunThen(s, size, body);
  }

  /// `LE::<i32>::try_from(size + 4)?.encode(encoder)?` for a self-sized
  /// value whose body was counted as `size`: nothing is written when the
  /// count failed or does not fit `i32`; otherwise the size field is, and
  /// `go` says the body comes next.
  method EncodeSizeField(ghost body: Trace, size: Result<nat>, d: Dest) returns (r: Outcome, go: bool)
    requires Valid(d) && !d.ToString?
    requires size.Ok? ==> Produced(body).Ok? && size.value == |Produced(body).value|
    requires size.Err? ==> Produced(body) == Err(size.error)
    modifies Repr(d)
    ensures Valid(d)
    ensures go ==> body.stop.Pass? && Run(old(State(d)), SelfSized(body)) == Run(State(d), body)
    ensures !go ==> Step(State(d), r) == Run(old(State(d)), SelfSized(body))
  {
    if size.Err? {
      RunSizedBodyFails(State(d), body);
      return Fail(size.error), false;
    }
    var n := FixedInts.TryFrom(FixedInts.Int32, size.value + 4);
    Int32Range();
    if n.Err? {
      RunSizedTooLarge(State(d), body);
      return Fail(n.error), false;
    }
    assert n.value == LE32(|Output(body.chunks)| + 4);
    RunSized(State(d), body);
    r := Encode.EncodeLeaf(LE(n.value), d);
    go := r.Pass?;
  }

  // ---- Documents ----------------------------------------------------------

  lemma DocSized(doc: Document, fixed: bool)
    ensures DocWrites(doc, fixed) == SelfSized(BodyWrites(doc, fixed))
  {
  }

  /// `BsonDocument::encode` (`examples/bson.rs:73-86`): the body's size is
  /// counted, the size plus four is narrowed to `i32` and written
  /// little-endian, then the body is written.
  method EncodeDocument(doc: Document, fixed: bool, d: Dest) returns (r: Outcome)
    requires Valid(d) && !d.ToString?
    modifies Repr(d)
    ensures Valid(d)
    ensures Step(State(d), r) == Run(old(State(d)), DocWrites(doc, fixed))
    decreases doc, 3
  {
    DocSized(doc, fixed);
    var size := BodySize(doc, fixed);
    var go;
    r, go := EncodeSizeField(BodyWrites(doc, fixed), size, d);
    if go {
      r := EncodeBody(doc, fixed, d);
    }
  }

  /// `document.encoded_size()`: the body written into a fresh
  /// `SizeEncoder`; its count, or the body's error.
  method BodySize(doc: Document, fixed: bool) returns (r: Result<nat>)
    ensures r.Ok? ==> Produced(BodyWrites(doc, fixed)).Ok? && r.value == |Produced(BodyWrites(doc, fixed)).value|
    ensures r.Err? ==> Produced(BodyWrites(doc, fixed)) == Err(r.error)
    decreases doc, 2
  {
    var counter := new SizeEncoder();
    var outcome := EncodeBody(doc, fixed, ToSize(counter));
    RunSize(0, BodyWrites(doc, fixed));
    if outcome.Fail? {
      return Err(outcome.error);
    }
    r := Ok(counter.Size());
  }

  /// The body `(Iter::new(&self.e_list), FromError::new(0u8))`: every
  /// element in order, stopping at the first error, then the closing zero.
  method EncodeBody(doc: Document, fixed: bool, d: Dest) returns (r: Outcome)
    requires Valid(d) && !d.ToString?
    modifies Repr(d)
    ensures Valid(d)
    ensures Step(State(d), r) == Run(old(State(d)), BodyWrites(doc, fixed))
    decreases doc, 1
  {
    var elements := doc.elements;
    ghost var closing := Writes(FromError(Byte(0)));
    var i := 0;
    while i < |elements|
      invariant 0 <= i <= |elements| && Valid(d)
      invariant Run(old(State(d)), BodyWrites(doc, fixed)) == Run(State(d), Then(ElementsWrites(elements[i..], fixed), closing))
    {
      ghost var before := State(d);
      ghost var rest := elements[i..];
      assert rest[0] == elements[i] && rest[1..] == elements[i + 1..];
      ThenAssociative(ElementWrites(elements[i], fixed), ElementsWrites(elements[i + 1..], fixed), closing);
      RunThen(before, ElementWrites(elements[i], fixed), Then(ElementsWrites(elements[i + 1..], fixed), closing));
      r := EncodeElement(elements[i], fixed, d);
      if r.Fail? {
        return;
      }
      i := i + 1;
    }
    ThenDone(closing);
    r := Encode.Encode(FromError(Byte(0)), d);
  }

  // ---- Elements -----------------------------------------------------------

  /// `BsonElement::encode` (`examples/bson.rs:129-189`): one branch per
  /// kind of element.
  method EncodeElement(element: Element, fixed: bool, d: Dest) returns (r: Outcome)
    requires Valid(d) && !d.ToString?
    modifies Repr(d)
    ensures Valid(d)
    ensures Step(State(d), r) == Run(old(State(d)), ElementWrites(element, fixed))
    decreases element, 1
  {
    match element.value
    case String(_) => r := EncodeStringElement(element, fixed, d);
    case Embedded(_) => r := EncodeNestedElement(element, fixed, d);
    case Array(_) => r := EncodeNestedElement(element, fixed, d);
    case Binary(_, _) => r := EncodeBinaryElement(element, fixed, d);
    case DBPointer(_, _) => r := EncodePointerElement(element, fixed, d);
    case Symbol(_) => r := EncodeSymbolElement(element, fixed, d);
    case CodeWithScope(_, _) => r := EncodeScopeElement(element, fixed, d);
    case _ => r := EncodeAtOnce(element, fixed, d);
  }

  /// An element written at once performs its tuple's writes.
  lemma AtOnceWrites(element: Element, fixed: bool)
    requires WrittenAtOnce(element.value)
    ensures ElementWrites(element, fixed) == WritesAll(ItemsAtOnce(element.name, element.value, fixed))
  {
  }

  /// The elements the source writes as one tuple: `(tag, e_name, payload...)`.
  method EncodeAtOnce(element: Element, fixed: bool, d: Dest) returns (r: Outcome)
    requires Valid(d) && !d.ToString? && WrittenAtOnce(element.value)
    modifies Repr(d)
    ensures Valid(d)
    ensures Step(State(d), r) == Run(old(State(d)), ElementWrites(element, fixed))
  {
    AtOnceWrites(element, fixed);
    r := Encode.Encode(Tuple(ItemsAtOnce(element.name, element.value, fixed)), d);
  }

  /// `(5i8, e_name, LE::<i32>::try_from(data.len())?, subtype, data)`: the
  /// length is narrowed before anything is written.
  method EncodeBinaryElement(element: Element, fixed: bool, d: Dest) returns (r: Outcome)
    requires Valid(d) && !d.ToString? && element.value.Binary?
    modifies Repr(d)
    ensures Valid(d)
    ensures Step(State(d), r) == Run(old(State(d)), ElementWrites(element, fixed))
  {
    var n := FixedInts.TryFrom(FixedInts.Int32, |element.value.data|);
    Int32Range();
    if n.Err? {
      RunFailed(State(d), n.error);
      return Fail(n.error);
    }
    r := EncodeAtOnce(element, fixed, d);
  }

  /// `2i8.encode(encoder)?; e_name.encode(encoder)?; BsonString(x).encode(encoder)?`.
  method EncodeStringElement(element: Element, fixed: bool, d: Dest) returns (r: Outcome)
    requires Valid(d) && !d.ToString? && element.value.String?
    modifies Repr(d)
    ensures Valid(d)
    ensures Step(State(d), r) == Run(old(State(d)), ElementWrites(element, fixed))
  {
    var name, x := element.name, element.value.str;
    AtOnceWrites(element, fixed);
    assert ItemsAtOnce(name, element.value, fixed) == [SignedByte(2)] + ([NameEnc(name)] + [StringEnc(x)]);
    RunSplit(State(d), [SignedByte(2)], [NameEnc(name)] + [StringEnc(x)]);
    OneItem(SignedByte(2));
    r := Encode.Encode(SignedByte(2), d);
    if r.Fail? {
      return;
    }
    RunSplit(State(d), [NameEnc(name)], [StringEnc(x)]);
    OneItem(NameEnc(name));
    r := Encode.Encode(NameEnc(name), d);
    if r.Fail? {
      return;
    }
    r := EncodeLast(StringEnc(x), d);
  }

  /// The last of several consecutive `encode` calls.
  method EncodeLast(e: Encodable, d: Dest) returns (r: Outcome)
    requires Valid(d) && !d.ToString?
    modifies Repr(d)
    ensures Valid(d)
    ensures Step(State(d), r) == Run(old(State(d)), WritesAll([e]))
  {
    OneItem(e);
    r := Encode.Encode(e, d);
  }

  /// `(12i8, e_name).encode(encoder)?; BsonString(x).encode(encoder)?;
  /// y.encode(encoder)?`.
  method EncodePointerElement(element: Element, fixed: bool, d: Dest) returns (r: Outcome)
    requires Valid(d) && !d.ToString? && element.value.DBPointer?
    modifies Repr(d)
    ensures Valid(d)
    ensures Step(State(d), r) == Run(old(State(d)), ElementWrites(element, fixed))
  {
    var name, x, y := element.name, element.value.str, element.value.pointer;
    AtOnceWrites(element, fixed);
    assert ItemsAtOnce(name, element.value, fixed) == [SignedByte(12), NameEnc(name)] + ([StringEnc(x)] + [Bytes(y)]);
    RunSplit(State(d), [SignedByte(12), NameEnc(name)], [StringEnc(x)] + [Bytes(y)]);
    r := Encode.Encode(Head(12, name), d);
    if r.Fail? {
      return;
    }
    RunSplit(State(d), [StringEnc(x)], [Bytes(y)]);
    OneItem(StringEnc(x));
    r := Encode.Encode(StringEnc(x), d);
    if r.Fail? {
      return;
    }
    r := EncodeLast(Bytes(y), d);
  }

  /// `(14i8, e_name).encode(encoder)?; BsonString(x).encode(encoder)?`.
  method EncodeSymbolElement(element: Element, fixed: bool, d: Dest) returns (r: Outcome)
    requires Valid(d) && !d.ToString? && element.value.Symbol?
    modifies Repr(d)
    ensures Valid(d)
    ensures Step(State(d), r) == Run(old(State(d)), ElementWrites(element, fixed))
  {
    var name, x := element.name, element.value.str;
    AtOnceWrites(element, fixed);
    assert ItemsAtOnce(name, element.value, fixed) == [SignedByte(14), NameEnc(name)] + [StringEnc(x)];
    RunSplit(State(d), [SignedByte(14), NameEnc(name)], [StringEnc(x)]);
    r := Encode.Encode(Head(14, name), d);
    if r.Fail? {
      return;
    }
    r := EncodeLast(StringEnc(x), d);
  }

  /// `tag.encode(encoder)?; e_name.encode(encoder)?; doc.encode(encoder)?`
  /// for a document (tag 3) or an array (tag 4) element.
  method EncodeNestedElement(element: Element, fixed: bool, d: Dest) returns (r: Outcome)
    requires Valid(d) && !d.ToString? && (element.value.Embedded? || element.value.Array?)
    modifies Repr(d)
    ensures Valid(d)
    ensures Step(State(d), r) == Run(old(State(d)), ElementWrites(element, fixed))
    decreases element, 0
  {
    var name, x := element.name, element.value.doc;
    var tag: FixedInts.i8 := if element.value.Embedded? then 3 else 4;
    if element.value.Embedded? {
      EmbeddedElementUnfolds(name, x, fixed);
    } else {
      ArrayElementUnfolds(name, x, fixed);
    }
    RunThen(State(d), Writes(SignedByte(tag)), Then(Writes(NameEnc(name)), DocWrites(x, fixed)));
    r := Encode.Encode(SignedByte(tag), d);
    if r.Fail? {
      return;
    }
    RunThen(State(d), Writes(NameEnc(name)), DocWrites(x, fixed));
    r := Encode.Encode(NameEnc(name), d);
    if r.Fail? {
      return;
    }
    r := EncodeDocument(x, fixed, d);
  }

  /// `(15i8, e_name).encode(encoder)?`, then the `code_w_s`.
  method EncodeScopeElement(element: Element, fixed: bool, d: Dest) returns (r: Outcome)
    requires Valid(d) && !d.ToString? && element.value.CodeWithScope?
    modifies Repr(d)
    ensures Valid(d)
    ensures Step(State(d), r) == Run(old(State(d)), ElementWrites(element, fixed))
    decreases element, 0
  {
    var name, x, y := element.name, element.value.str, element.value.doc;
    ScopeElementWrites(name, x, y, fixed);
    RunThen(State(d), Writes(Head(15, name)), ScopeWrites(x, y, fixed));
    r := Encode.Encode(Head(15, name), d);
    if r.Fail? {
      return;
    }
    r := EncodeScope(x, y, fixed, d);
  }

  // ---- Code with scope ----------------------------------------------------

  /// The `code_w_s` of a code-with-scope element (`examples/bson.rs:172-180`):
  /// the size of `(BsonString(x), y)` is counted, the size plus four is
  /// narrowed to `i32` and written, then the content is written.
  method EncodeScope(x: string, y: Document, fixed: bool, d: Dest) returns (r: Outcome)
    requires Valid(d) && !d.ToString?
    modifies Repr(d)
    ensures Valid(d)
    ensures Step(State(d), r) == Run(old(State(d)), ScopeWrites(x, y, fixed))
    decreases y, 7
  {
    var size := ScopeSize(x, y, fixed);
    var go;
    r, go := EncodeSizeField(ScopeContent(x, y, fixed), size, d);
    if go {
      r := EncodeScopeContent(x, y, fixed, d);
    }
  }

  /// `content.encoded_size()` for the content of a code-with-scope value.
  method ScopeSize(x: string, y: Document, fixed: bool) returns (r: Result<nat>)
    ensures r.Ok? ==> Produced(ScopeContent(x, y, fixed)).Ok? && r.value == |Produced(ScopeContent(x, y, fixed)).value|
    ensures r.Err? ==> Produced(ScopeContent(x, y, fixed)) == Err(r.error)
    decreases y, 6
  {
    var counter := new SizeEncoder();
    var outcome := EncodeScopeContent(x, y, fixed, ToSize(counter));
    RunSize(0, ScopeContent(x, y, fixed));
    if outcome.Fail? {
      return Err(outcome.error);
    }
    r := Ok(counter.Size());
  }

  /// `content.encode(encoder)`: the code as a BSON `string`, then the scope
  /// document.
  method EncodeScopeContent(x: string, y: Document, fixed: bool, d: Dest) returns (r: Outcome)
    requires Valid(d) && !d.ToString?
    modifies Repr(d)
    ensures Valid(d)
    ensures Step(State(d), r) == Run(old(State(d)), ScopeContent(x, y, fixed))
    decreases y, 5
  {
    ThenNothing(DocWrites(y, fixed));
    RunThen(State(d), Writes(StringEnc(x)), DocWrites(y, fixed));
    r := Encode.Encode(StringEnc(x), d);
    if r.Fail? {
      return;
    }
    r := EncodeDocument(y, fixed, d);
  }

  // ---- Whole documents ----------------------------------------------------

  /// The source's `main`: the document's `encoded_size()`, whose error is
  /// returned at once with nothing encoded, then the document encoded into a
  /// `Vec<u8>` with that capacity. The size is that of the bytes the `Vec`
  /// receives, and those bytes are the BSON grammar's for the document (with
  /// `fixed`, or when no `JavaScriptCode` element occurs at any depth).
  method SizeThenEncodeDocument(doc: Document, fixed: bool) returns (size: Result<nat>, bytes: seq<u8>, r: Outcome)
    requires fixed || NoCode(doc)
    ensures size.Ok? <==> DocBytes(doc).Ok?
    ensures size.Ok? ==> r == Pass && bytes == DocBytes(doc).value && |bytes| == size.value
    ensures size.Err? ==> size.error == DocBytes(doc).error && r == Fail(size.error) && bytes == []
  {
    var counter := new SizeEncoder();
    var counted := EncodeDocument(doc, fixed, ToSize(counter));
    RunSize(0, DocWrites(doc, fixed));
    DocMatches(doc, fixed);
    if counted.Fail? {
      size, bytes, r := Err(counted.error), [], counted;
      return;
    }
    size := Ok(counter.Size());
    var buf := new VecEncoder(size.value);
    r := EncodeDocument(doc, fixed, ToVec(buf));
    RunVec([], DocWrites(doc, fixed));
    assert [] + Output(DocWrites(doc, fixed).chunks) == Output(DocWrites(doc, fixed).chunks);
    bytes := buf.contents;
  }
}
