# encode — a Dafny model

A Dafny model of the Rust crate `encode`: values that write their own bytes
into an encoder. The model covers:

- the encoder contracts and the encoders in scope;
- the library's own `Encodable` implementations;
- its combinators;
- the two example formats, BSON and JSON.

How the model is built:

- **What an encoding does.** `Encoding` describes it as a value, a `Trace`:
  - the writes it hands to the encoder, in order (`put_slice`, `put_byte`, `put_str`);
  - the verdict it reaches itself when all of them succeed.

  `Run` plays a trace into an encoder's observable state (a `Sink`) and stops at the first write that fails, as `?` does.
- **The encoders.** `Encoders` holds them as classes whose fields change in place:
  - `SizeEncoder` (a counter);
  - `SliceEncoder` (a `&mut [u8]` window over an `array`);
  - `VecEncoder`;
  - `StringEncoder`;
  - the stateless `()`.

  Each write method is proved to move its encoder exactly as `Encoding.Put` says.
- **The values.** `Encodables` gives every value in scope (one datatype, one constructor per Rust type) the trace its `encode` performs.
- **Encoding into a real encoder.** `Encode` holds the imperative `encode` methods, including the loops of `Iter` and `Separated` and the counting pass of `LengthPrefix`. Each is proved to leave the encoder where `Run` of that trace says.
- **Meaning of each encoding.** `Primitives` and `Combinators` state what each value's bytes are, and relate each combinator to an independent description: a join, a fixed-width field that reads back, a bit layout.
- **Integers and bits.** `FixedInts` models `to_le_bytes`, `to_be_bytes`, `from_*_bytes` and `TryFrom<usize>` for the ten integer types. `Flags` models the two `u8` conversions of the `Flags` combinator.
- **UTF-8.** `Utf8` models `char::encode_utf8` and `str::as_bytes` (RFC 3629).
- **JSON.** `Json` covers `examples/json.rs`:
  - the escaping is proved lossless against a reader following section 7 of RFC 8259;
  - every value is proved to write the UTF-8 of its JSON text.
- **BSON.** `Bson` and `BsonEncode` cover `examples/bson.rs`. Every document the encoder writes is proved to have the bytes of the BSON 1.1 grammar, with its `cstring` read as a name's UTF-8 bytes followed by 0x00. Those bytes are BSON 1.1 when no name or regular expression holds U+0000 and no bare `JavaScriptCode` is written; the two exceptions are listed under Findings.
- **Sink examples.** `SinkExamples` holds the encoders' documented examples and tests, stated as calls on the encoder classes.

Errors:

- Rust gives every encodable its own error type, which must absorb the encoder's (`From`).
- The model has one `Error` datatype (`InsufficientSpace`, `TryFromIntError`), so every `From` conversion is the identity.
- "The error is propagated unchanged" is therefore literal equality.

## Model

| member | source | states |
|---|---|---|
| Utf8.EncodeChar | src/encodables/primitives.rs:5-13 | a `char` becomes one to four bytes; the length is 1, 2, 3 or 4 exactly as the scalar value is below 0x80, 0x800, 0x10000 or above |
| Utf8.Encode | src/lib.rs:164-172 | `str::as_bytes`, what `put_str` hands a byte encoder: each character's UTF-8 form in order, at least one byte per character |
| Utf8.EncodeCharWellFormed | src/encodables/primitives.rs:5-13 | every encoded character is a well-formed `UTF8-char` (no overlong form, surrogate or value above U+10FFFF) whose leading byte announces its length |
| Utf8.DecodeEncodeChar | src/encodables/primitives.rs:5-13 | decoding an encoded character gives back its scalar value |
| Utf8.EncodeAppend | src/lib.rs:164-172 | `as_bytes` of a concatenation is the concatenation of the `as_bytes` |
| Utf8.EncodeValid | examples/json.rs:104 | the bytes of any string are valid UTF-8 |
| Utf8.EncodeCharZero | src/encodables/primitives.rs:5-13 | a character's UTF-8 form holds a 0x00 byte exactly when the character is U+0000 |
| Utf8.EncodeZero | src/lib.rs:164-172 | a string's UTF-8 bytes hold 0x00 exactly when the string holds U+0000 |
| Utf8.EncodeAscii | src/impls/slices.rs:90-101 | an ASCII string is written one byte per character, each byte equal to the character |
| FixedInts.ByteOf | src/encodables/primitives.rs:24-32 | `v as u8` keeps the low seven bits of an `i8` and sets the top bit exactly for negative values |
| FixedInts.ToLE | src/combinators/le.rs:76-84 | `to_le_bytes`: the two's-complement bit pattern, least significant byte first, in exactly as many bytes as the type is wide |
| FixedInts.ToBE | src/combinators/be.rs:79-87 | `to_be_bytes`: the same bit pattern, most significant byte first, as many bytes as the type is wide |
| FixedInts.FromLE | src/combinators/le.rs:82 | the reader `from_le_bytes` that inverts what `LE` writes: every bit pattern of the type's width reads back as a number in the type's range, the sign bit weighing negatively for a signed type |
| FixedInts.FromBE | src/combinators/be.rs:85 | the reader `from_be_bytes` that inverts what `BE` writes: the bytes reversed and read little-endian, always in the type's range |
| FixedInts.TryFrom | src/combinators/le.rs:117-129 | `T::try_from(usize)` succeeds exactly when the value is at most `T::MAX`, then yields that value, and otherwise fails with `TryFromIntError` |
| FixedInts.BEIsReversedLE | src/combinators/be.rs:85 | big-endian bytes are the little-endian bytes reversed |
| FixedInts.LERoundTrip | src/combinators/le.rs:76-84 | `from_le_bytes(to_le_bytes(n)) == n` for every type and every value in range, signed ones in two's complement |
| FixedInts.BERoundTrip | src/combinators/be.rs:79-87 | `from_be_bytes(to_be_bytes(n)) == n` |
| FixedInts.LEInjective | src/combinators/le.rs:76-84 | two values of one type with the same little-endian bytes are equal |
| FixedInts.Ranges | src/combinators/le.rs:131 | the `MIN`/`MAX` of `u8`, `u16`, `u32`, `u64`, `i8`, `i32` are the Rust constants |
| FixedInts.Examples | src/combinators/le.rs:17-19 | `1u16` is [1, 0] little-endian and [0, 1] big-endian; `-1i32` is four 0xFF bytes |
| Flags.FromByte | src/combinators/flags.rs:67-76 | the loop filling `[false; 8]` from the highest index down sets flag i to bit i of the byte |
| Flags.FlagsOf | src/combinators/flags.rs:67-76 | what `Flags::from(u8)` yields: flag i is bit i of the byte |
| Flags.ToByte | src/combinators/flags.rs:78-89 | what `u8::from(Flags)` yields: the array reversed and read as bits, so flag i lands at bit 7-i |
| Flags.ToByteBits | src/combinators/flags.rs:78-89 | `u8::from(flags)` gives flag i the weight of bit 7 - i, so index 0 is the most significant bit |
| Flags.ToByteInjective | src/combinators/flags.rs:78-89 | different flag arrays pack into different bytes |
| Flags.ByteToFlagsToByte | src/combinators/flags.rs:67-89 | byte to flags and back reverses the byte's bits |
| Flags.NotARoundTrip | src/combinators/flags.rs:67-89 | so the two conversions are not inverse: 0x01 comes back as 0x80 |
| Flags.FlagsOfMsbFirst | src/combinators/flags.rs:67-76 | corrected `Flags::from(u8)`: flag i is bit 7 - i |
| Flags.MsbFirstRoundTrip | src/combinators/flags.rs:67-89 | corrected, byte to flags to byte and flags to byte to flags are both the identity |
| Flags.Examples | src/combinators/flags.rs:16-29 | all-false flags give 0x00; [t,f,f,t,f,f,f,f] gives 0b1001_0000 |
| Encoding.Then | src/impls/tuples.rs:17-22 | `p?; q` is `p` itself when `p` fails; otherwise it has `p`'s writes then `q`'s, with `q`'s verdict |
| Encoding.Put | src/lib.rs:105-138 | one write keeps the encoder's kind and leaves it in a valid state |
| Encoding.Run | src/impls/tuples.rs:17-22 | a run of an encoding's writes into a sink, stopping at the first failing write, then the encoding's own verdict (the `?` semantics): it succeeds only if the encoding does, and an encoding that writes nothing leaves the sink as it was |
| Encoding.OutputOfText | src/lib.rs:164-172 | a sequence of `put_str` writes gives a byte encoder the UTF-8 bytes of the text |
| Encoding.ThenAssociative | src/impls/tuples.rs:17-22 | sequencing with `?` is associative, so nested tuples write alike |
| Encoding.RunThen | src/impls/tuples.rs:17-22 | running `p?; q` runs `p`, then `q` from where `p` left the encoder, unless `p` or one of its writes failed |
| Encoding.StepThen | src/impls/tuples.rs:17-22 | after a method performed `p` of `p?; q`, the whole run has ended (failure) or continues as `q` |
| Encoding.RunSize | src/encoders/size.rs:65-77 | a `SizeEncoder` adds the number of bytes written, never fails, and the verdict is the encoding's own |
| Encoding.RunVec | src/encoders/alloc.rs:7-22 | a `Vec<u8>` receives exactly the written bytes after its contents and never fails |
| Encoding.RunText | src/encoders/alloc.rs:25-34 | a `String` receives exactly the written text after its own and never fails |
| Encoding.RunUnit | src/encoders/primitives.rs:5-19 | `()` has no state, never fails, and the verdict is the encoding's own |
| Encoding.RunWindow | src/encoders/slices.rs:11-23 | a window ends where the closed form `WindowAfter` says: the bytes of the writes that fit copied to its front, then `InsufficientSpace` and an empty window at the first that does not |
| Encoding.RunChunksWindow | src/encoders/slices.rs:11-18 | the same for a sequence of writes, by induction over the writes |
| Encoding.WindowPut | src/encoders/slices.rs:11-17 | a write that fits is copied to the window's front and the window shrinks from the front by its length |
| Encoding.EmptyWindowRefuses | src/encoders/slices.rs:12-14 | after a failed write the window is empty, so every later non-empty write fails and changes nothing |
| Encoding.WindowTooSmall | src/encoders/slices.rs:12-14 | a window smaller than an encoding's bytes makes it fail with `InsufficientSpace`, whatever its own verdict |
| Encoding.WindowLargeEnough | src/encoders/slices.rs:11-17 | a window large enough behaves like a `Vec<u8>` over its front: all bytes copied in order, the rest of the buffer untouched |
| Encoding.FittingIsLongest | src/encoders/slices.rs:12-14 | the writes that land are the longest prefix whose bytes fit |
| Encoders.SizeEncoder.constructor | src/encoders/size.rs:39-41 | a new `SizeEncoder` counts 0 |
| Encoders.SizeEncoder.PutSlice | src/encoders/size.rs:67-71 | the count grows by exactly the slice's length |
| Encoders.SizeEncoder.PutByte | src/encoders/size.rs:73-77 | the count grows by exactly 1 |
| Encoders.SizeEncoder.WriteStr | src/encoders/size.rs:57-62 | the count grows by the string's UTF-8 length |
| Encoders.SliceEncoder.constructor | src/encoders/slices.rs:44-46 | `&mut buf[..]`: the whole buffer is the window |
| Encoders.SliceEncoder.PutSlice | src/encoders/slices.rs:11-18 | a slice that fits is copied to the window's front, which moves on by its length; a longer one fails with `InsufficientSpace`, writes no byte and leaves an empty window; bytes outside the copied range never change |
| Encoders.SliceEncoder.PutByte | src/encoders/slices.rs:21-23 | `put_byte` moves the window exactly as `put_slice` of the one-byte slice |
| Encoders.VecEncoder.constructor | src/encoders/alloc.rs:43-50 | a `Vec` of any capacity starts empty |
| Encoders.VecEncoder.PutSlice | src/encoders/alloc.rs:13-16 | the slice is appended after the contents |
| Encoders.VecEncoder.PutByte | src/encoders/alloc.rs:19-22 | exactly one byte is appended |
| Encoders.StringEncoder.constructor | src/encoders/alloc.rs:53-60 | a `String` of any capacity starts empty |
| Encoders.StringEncoder.PutStr | src/encoders/alloc.rs:31-34 | the text is appended after the contents |
| Encoders.State | src/lib.rs:91-138 | every encoder's state is a valid sink, and only the `String` is a text-only one |
| Encoders.PutSlice | src/lib.rs:123-138 | `ByteEncoder::put_slice` on any byte encoder moves it as one raw write |
| Encoders.PutByte | src/lib.rs:123-138 | `ByteEncoder::put_byte` on any byte encoder moves it as one one-byte write |
| Encoders.PutStr | src/lib.rs:164-172 | `put_str` appends the text to a `String` and, through the blanket implementation, is one `put_slice` of the UTF-8 bytes on every byte encoder |
| Encodables.Writes | src/lib.rs:62-78 | the writes and verdict of `encode` for every value; a value whose type only needs a `StrEncoder` performs only `put_str` writes |
| Encodables.LeafWrites | src/encodables/primitives.rs:5-44 | the single write of every primitive `encode` (`u8`, `i8`, `bool`, `char`, and the slices, `str` and `CStr` of src/impls/slices.rs:7-53): one chunk, always `Ok` |
| Encodables.WritesAll | src/impls/tuples.rs:17-22 | the members one after another, stopping at the first failure; text-only members give text-only writes |
| Encodables.WritesSeparated | src/combinators/separated.rs:50-62 | the first item, then separator and item for each later one; text-only parts give text-only writes |
| Encodables.Narrow | src/combinators/length_prefix.rs:51 | `Length::try_from(n)` yields a single-write length value or fails with `TryFromIntError` |
| Encodables.LengthValue | src/combinators/length_prefix.rs:50-51 | the length value of a `LengthPrefix` is a single-write value when it exists |
| Encodables.PrefixWrites | src/combinators/length_prefix.rs:49-56 | `LengthPrefix::encode` given its payload's writes: when it fails nothing is written, and it succeeds only when the payload does; the layout of a success, one length write then the payload, is `Combinators.LengthPrefixLayout` |
| Encode.Encode | src/lib.rs:62-78 | `e.encode(encoder)` leaves any encoder where running `Writes(e)` says, and returns that run's verdict |
| Encode.EncodeWrapped | src/impls/option_result.rs:4-33 | `Option`, `Result`, `&T`/`Box`/`Cow`, `Cond` and `FromError` leave the encoder where their writes say |
| Encode.EncodeLeaf | src/encodables/primitives.rs:5-44 | the single `put_byte`/`put_slice`/`put_str` of each primitive, `LE`, `BE` and `Flags` value moves the encoder as its write says |
| Encode.EncodeAll | src/combinators/iter.rs:41-45 | the loop over a tuple's or `Iter`'s items leaves the encoder where running the items in order says, returning the first error at once |
| Encode.EncodeSeparated | src/combinators/separated.rs:50-62 | the `is_first` loop leaves the encoder where running the items with separators between them says |
| Encode.EncodeSeparatedItem | src/combinators/separated.rs:54-59 | one turn of that loop: separator unless first, then the item; the run goes on from the next item or has ended with the first error |
| Encode.EncodeLengthPrefix | src/combinators/length_prefix.rs:49-56 | counting pass, narrowing, then length and payload: the encoder ends where the prefix's writes say |
| Encode.PrefixSteps | src/combinators/length_prefix.rs:50-54 | without a length value nothing is written and its error is returned; with one, the length's write precedes the payload's |
| Encode.SizedLength | src/combinators/length_prefix.rs:50-51 | `encoded_size()?` then `Length::try_from(len)?` give exactly the length value |
| Encode.EncodedSize | src/lib.rs:179-183 | `encoded_size` is the number of bytes a real encoder receives, or the encoding's own error |
| Encode.DeterministicOutput | src/lib.rs:33-44 | the same value encoded into two fresh `Vec<u8>` gives the same bytes and verdict, namely all the bytes it wrote |
| Encode.SizeThenEncode | src/lib.rs:140-147 | when sizing succeeds, a `Vec` with that capacity receives exactly the encoded bytes, as many as counted; sizing fails exactly when encoding does |
| Primitives.ByteEncoding | src/encodables/primitives.rs:15-22 | a `u8` is one `put_byte` of itself; `u8::MAX` gives 0xFF |
| Primitives.SignedByteEncoding | src/encodables/primitives.rs:24-32 | an `i8` writes its two's-complement byte (`v mod 256`); `i8::MIN` gives 0x80 |
| Primitives.BooleanEncoding | src/encodables/primitives.rs:34-44 | `true` writes 0x01 and `false` 0x00 |
| Primitives.CharacterEncoding | src/encodables/primitives.rs:5-13 | a `char` is one `put_str` of itself: one to four bytes of well-formed UTF-8; `'a'` gives "a" |
| Primitives.RefEncoding | src/encodables/primitives.rs:46-57 | `&T`, `Box<T>` and `Cow<T>`, borrowed or owned, write and fail exactly as `T` |
| Primitives.BytesEncoding | src/impls/slices.rs:7-29 | a byte slice, array or `Vec<u8>` is one `put_slice` of itself |
| Primitives.StrEncoding | src/impls/slices.rs:31-41 | a `str`/`String` is one `put_str`: a byte encoder receives its UTF-8 bytes, a `String` its text |
| Primitives.CStrEncoding | src/impls/slices.rs:43-53 | a `CStr`/`CString` writes its bytes then one 0x00, the only zero written |
| Primitives.TextAsBytes | src/impls/std_alloc.rs:49-56 | the older revision's `put_slice` of UTF-8 bytes leaves every byte encoder exactly as `put_str` does |
| Primitives.BytesExample | src/impls/slices.rs:62-73 | `[1, 2, 3]` writes 01 02 03 |
| Primitives.StrExample | src/impls/slices.rs:90-101 | "Hello world!" writes those 12 bytes |
| Primitives.CStrExample | src/impls/slices.rs:104-115 | `c"Hello world!"` writes them followed by 0x00 |
| Primitives.TupleConcatenates | src/impls/tuples.rs:17-21 | a tuple whose members all succeed writes their encodings concatenated, left to right |
| Primitives.TupleStopsAtFirstError | src/impls/tuples.rs:19-20 | the first failing member's error is the tuple's, and nothing after it is written |
| Primitives.UnitWritesNothing | src/impls/tuples.rs:56-63 | `()` writes nothing and succeeds |
| Primitives.TupleIntoUnit | src/impls/tuples.rs:69-72 | `("hello", "world")` encodes into `()` successfully |
| Primitives.OptionEncoding | src/impls/option_result.rs:12-15 | `None` writes nothing and succeeds; `Some(v)` encodes as `v` |
| Primitives.ResultEncoding | src/impls/option_result.rs:28-31 | `Ok(v)` encodes as `v`; `Err(e)` returns `e` and leaves the encoder untouched |
| Combinators.LEEncoding | src/combinators/le.rs:76-84 | `LE(n)` writes exactly `to_le_bytes`, as many bytes as the type is wide, from which `from_le_bytes` gives `n` back |
| Combinators.BEEncoding | src/combinators/be.rs:79-87 | `BE(n)` writes `to_be_bytes`, the little-endian bytes reversed, from which `from_be_bytes` gives `n` back |
| Combinators.NonZeroEncoding | src/combinators/le.rs:103-111 | `LE`/`BE` of a `NonZero` write what they write for `.get()`, which is never all zeros |
| Combinators.EndianExamples | src/combinators/le.rs:17-19 | `LE::new(1u16)` writes [1, 0] and `BE::new(1u16)` writes [0, 1] |
| Combinators.FlagsEncoding | src/combinators/flags.rs:91-98 | `Flags` writes the one byte `u8::from` packs, flag i at bit 7 - i, and different flags give different bytes |
| Combinators.FlagsExamples | src/combinators/flags.rs:16-29 | the documented examples give 0x00 and 0x90 |
| Combinators.CondEncoding | src/combinators/cond.rs:82-88 | when the condition holds, `Cond` writes as its value; otherwise nothing, and it succeeds whatever the value would do |
| Combinators.CondExample | src/combinators/cond.rs:14-23 | with "non-empty", `c"hello"` gives "hello\0" and `c""` gives nothing |
| Combinators.IterEncoding | src/combinators/iter.rs:40-45 | `Iter` writes as a tuple of its items: their encodings concatenated when all succeed, stopping at the first error |
| Combinators.IterExample | src/combinators/iter.rs:9-15 | the pairs `(c"hello", 1u8)`, `(c"world", 2u8)` give "hello\0\x01world\0\x02" |
| Combinators.JoinLength | src/combinators/separated.rs:51-61 | n joined items hold their own bytes and n - 1 separators |
| Combinators.SeparatedJoins | src/combinators/separated.rs:50-62 | when items and separator succeed, `Separated` writes the items' encodings joined by the separator's, nothing before the first or after the last |
| Combinators.SeparatorUnused | src/combinators/separated.rs:51-61 | with fewer than two items the separator is never encoded: empty writes nothing, one item writes only itself |
| Combinators.SeparatorFails | src/combinators/separated.rs:57 | with two items or more a failing separator fails the whole, right after the first item |
| Combinators.SeparatedExample | src/combinators/separated.rs:10-13 | `["hello", "world", "another"]` with ", " gives "hello, world, another" |
| Combinators.FromErrorEncoding | src/combinators/from_error.rs:74-77 | `FromError` writes exactly what its value writes and ends any encoder in the same state, failing exactly when the value does |
| Combinators.FromErrorExample | src/combinators/from_error.rs:18-20 | `FromError::new("hello")` writes "hello" |
| Combinators.NarrowFits | src/combinators/length_prefix.rs:51 | the length narrowing succeeds exactly when the size fits the length type |
| Combinators.LengthPrefixLayout | src/combinators/length_prefix.rs:49-56 | on success the output is a length field of the type's width followed by the payload, and the field reads back as the payload's size (the field itself not counted) |
| Combinators.FieldReadsBack | src/combinators/length_prefix.rs:53 | a length that fits is written as a field of the type's width that reads back as that length |
| Combinators.LengthPrefixTooLong | src/combinators/length_prefix.rs:51 | a payload too long for the length type fails with `TryFromIntError` and leaves any encoder untouched |
| Combinators.LengthPrefixInnerFails | src/combinators/length_prefix.rs:50 | a failing payload fails the prefix with its own error before anything is written |
| Combinators.U8Prefix | src/combinators/length_prefix.rs:53-54 | a `u8` length before a payload that fits is one byte holding the payload's length |
| Combinators.LengthPrefixExample | src/combinators/length_prefix.rs:11-13 | a `u8` prefix over "hello" gives "\x05hello" |
| Json.UnescapeOne | examples/json.rs:39-48 | each character's escape reads back as that character, whatever follows |
| Json.UnescapeShort | examples/json.rs:40-46 | the two-character escapes read back as their characters |
| Json.UnescapeControl | examples/json.rs:47 | a `\u00XX` escape of a control character reads back as that character |
| Json.EscapeText | examples/json.rs:39-48 | the text one character becomes: the character itself or a backslash escape, never containing a control character |
| Json.Escape | examples/json.rs:39-48 | the value the loop encodes for one character: a single text write of exactly `EscapeText(c)` |
| Json.JsonStringEnc | examples/json.rs:35-52 | `JsonString(s)` as the combinator value `('"', Iter(escapes), '"')`; its bytes are those of the quoted escaped text (`Json.JsonStringBytes`) |
| Json.JsonEnc | examples/json.rs:59-79 | the value `Json::encode` encodes for each variant: `"null"`, `"true"`, `"false"`, `JsonString`, and the bracketed `Separated` arrays and objects; its bytes are those of `JsonText` (`Json.JsonBytes`) |
| Json.UnescapeEscaped | examples/json.rs:38-50 | escaping loses nothing: a reader following section 7 of RFC 8259 recovers the original string |
| Json.EscapedHasNoControl | examples/json.rs:39-47 | no control character reaches the output unescaped |
| Json.EscapeBytes | examples/json.rs:39-48 | one character writes the UTF-8 bytes of its escape |
| Json.EscapesBytes | examples/json.rs:38-50 | the characters' escapes all succeed and write the bytes of the escaped text |
| Json.JsonStringBytes | examples/json.rs:35-52 | `JsonString(s)` writes the bytes of the quoted, escaped string |
| Json.JsonBytes | examples/json.rs:59-79 | every value writes the UTF-8 bytes of its JSON text (keywords, strings, `[`…`]` and `{`…`}` with commas) |
| Json.Bracketed | examples/json.rs:70 | `(open, Separated(items, ','), close)` writes the items' texts joined by commas between the delimiters |
| Json.ItemsBytes | examples/json.rs:70 | every array item succeeds with the bytes of its text |
| Json.MembersBytes | examples/json.rs:72-77 | every `(JsonString(k), ':', v)` member succeeds with the bytes of `"k":v` |
| Json.JsonIsUtf8 | examples/json.rs:104 | the output always encodes and is valid UTF-8 |
| Json.NullExample | examples/json.rs:187-192 | `null` |
| Json.TrueExample | examples/json.rs:121-129 | `true` |
| Json.FalseExample | examples/json.rs:121-129 | `false` |
| Json.EmptyArrayExample | examples/json.rs:161-166 | `[]` |
| Json.EmptyObjectExample | examples/json.rs:180-185 | `{}` |
| Json.PlainString | examples/json.rs:138-146 | a string with nothing to escape is written between quotes as it is |
| Json.HelloExample | examples/json.rs:138-146 | "Hello, World!" gives `"Hello, World!"` |
| Json.NameExample | examples/json.rs:168-178 | one member "name": "John Doe" gives `{"name":"John Doe"}` |
| Json.EscapeExample | examples/json.rs:95 | a line feed becomes `\n`, a backslash `\\` and NUL `\u0000` |
| Json.EncodeJsonString | examples/json.rs:35-52 | the quote, the per-character loop and the closing quote leave the encoder where running `JsonString(s)` says |
| Json.EncodeJson | examples/json.rs:59-79 | `Json::encode` leaves the encoder where running the value's combinator form says |
| Json.SizeThenWrite | examples/json.rs:98-111 | the bytes are the UTF-8 JSON text, valid UTF-8, exactly as many as `encoded_size` counted |
| Bson.Int32Range | examples/bson.rs:82-83 | the `i32` range is [-2^31, 2^31 - 1] |
| Bson.LE32 | examples/bson.rs:83 | `LE::<i32>::try_from(n)` for a size that fits holds that size |
| Bson.NameEnc | examples/bson.rs:130 | `e_name`, the tuple `(&self.e_value, 0u8)`; it writes the name's `cstring` (`Bson.NameBytes`) |
| Bson.StringEnc | examples/bson.rs:202-205 | `BsonString(x)`: a `LengthPrefix` with an `LE<i32>` length over `(x, 0u8)`; it writes the grammar's `string` (`Bson.StringMatches`) |
| Bson.SignedTag | examples/bson.rs:130-186 | the `i8` literal each variant's element starts with; its bit pattern is the grammar's type byte (`Bson.TagMatches`) |
| Bson.SelfSized | examples/bson.rs:82-84 | a value prefixed by its own size: when it fails nothing is written; when it succeeds the body succeeded and its writes follow exactly one size write |
| Bson.DocWrites | examples/bson.rs:73-86 | the writes and verdict of `BsonDocument::encode`: the body self-sized; they equal the grammar's `document` (`Bson.DocMatches`) |
| Bson.BodyWrites | examples/bson.rs:74-79 | the document without its size: the elements in order, then the `FromError::new(0u8)` terminator |
| Bson.ElementWrites | examples/bson.rs:129-189 | the writes of `BsonElement::encode`: one tuple for every element without a nested document, part by part otherwise; they equal the grammar's `element` (`Bson.ElementMatches`) |
| Bson.PartWrites | examples/bson.rs:143-180 | embedded-document and array elements as tag, name, nested document; a binary element whose length does not fit `i32` fails before writing; code-with-scope as tag and name then the sized scope |
| Bson.NameBytes | examples/bson.rs:130 | `e_name` writes the name's `cstring` |
| Bson.HeadBytes | examples/bson.rs:156 | `(tag, e_name)` writes the tag's byte then the `cstring` |
| Bson.StringMatches | examples/bson.rs:202-205 | `BsonString(x)` writes the grammar's `string`: int32 of byte length + 1, the bytes, 0x00 |
| Bson.SelfSizedMatches | examples/bson.rs:82-84 | a self-sized value writes an int32 that counts itself and the body, then the body; too large a count is `TooLarge` |
| Bson.ScopeMatches | examples/bson.rs:172-180 | the `code_w_s` int32 counts its own four bytes, the code `string` and the scope document |
| Bson.TagMatches | examples/bson.rs:130-186 | the `i8` tags write the grammar's type bytes: 0x02..0x13 for the modelled variants (`Double`, 0x01, is not modelled), 0xFF for MinKey, 0x7F for MaxKey |
| Bson.BinaryPayload | examples/bson.rs:153-155 | binary is the int32 data length (subtype not counted), the subtype, the data |
| Bson.RegexPayload | examples/bson.rs:161 | a regular expression is two `cstring`s |
| Bson.ScalarPayload | examples/bson.rs:157-184 | ObjectId, boolean, UTC datetime, int32, timestamp, int64 and decimal128 payloads are the grammar's |
| Bson.StringPayload | examples/bson.rs:138-142 | string and symbol payloads (and code, corrected) are one BSON `string` |
| Bson.PointerPayload | examples/bson.rs:162-166 | a DBPointer payload is a `string` and twelve bytes |
| Bson.PayloadMatches | examples/bson.rs:130-186 | every payload written inside an element's tuple is the grammar's |
| Bson.AtOnceMatches | examples/bson.rs:130-186 | an element written as one tuple has the grammar's `element` bytes |
| Bson.TerminatorBytes | examples/bson.rs:78 | `FromError::new(0u8)` writes the closing 0x00 |
| Bson.DocOfElements | examples/bson.rs:73-86 | a document is its elements, then 0x00, prefixed by its own size |
| Bson.FlatElementMatches | examples/bson.rs:129-189 | an element with no document inside has the grammar's bytes |
| Bson.EmbeddedElementMatches | examples/bson.rs:143-147 | an embedded-document element has the grammar's bytes |
| Bson.ArrayElementMatches | examples/bson.rs:148-152 | an array element has the grammar's bytes |
| Bson.ScopeElementMatches | examples/bson.rs:172-180 | a code-with-scope element has the grammar's bytes |
| Bson.DocMatches | examples/bson.rs:73-86 | every document has the grammar's `document` bytes, given no bare `JavaScriptCode` (or the corrected one); a `cstring` there is a name's bytes then 0x00, which is BSON 1.1 for `Bson.NulFree` documents |
| Bson.ElementsMatch | examples/bson.rs:74-75 | the elements of a list, in order, have the grammar's `e_list` bytes (`cstring` as in `Bson.DocMatches`) |
| Bson.ElementMatches | examples/bson.rs:129-189 | every element has the grammar's `element` bytes (`cstring` as in `Bson.DocMatches`) |
| Bson.SizedFraming | examples/bson.rs:82-83 | a sized value begins with its own total length as a little-endian int32, followed by the value |
| Bson.DocFraming | examples/bson.rs:82-85 | every written document begins with its own length and ends with 0x00 |
| Bson.DocAllOrNothing | examples/bson.rs:82-84 | a document whose own encoding fails (its body's error, or `TooLarge`) writes nothing and leaves every encoder as it was, because the size is counted and narrowed before the first write; an encoder that fails part-way (a full `&mut [u8]`) can still hold the bytes written before |
| Bson.DocTooLarge | examples/bson.rs:82-83 | a document whose total exceeds `i32::MAX` fails with `TooLarge` before writing anything |
| Bson.HelloWorldExample | examples/bson.rs:258-272 | `{"hello": "world"}` gives `\x16\x00\x00\x00\x02hello\x00\x06\x00\x00\x00world\x00\x00` |
| Bson.BareCodeElement | examples/bson.rs:167 | as written, a `JavaScriptCode` element is tag, name and the code's UTF-8, with no length and no terminator |
| Bson.BareCodeIsAmbiguous | examples/bson.rs:167 | as written, two different documents encode to the same bytes |
| Bson.CodeAsString | examples/bson.rs:167 | corrected, the code is a BSON `string` |
| Bson.ReadBytesThenZero | examples/bson.rs:130 | bytes followed by 0x00 are read back as a `cstring` exactly when they hold no 0x00 |
| Bson.CStringReadsBack | examples/bson.rs:130 | a name's `cstring` reads back as the name's bytes, followed by the rest, exactly when the name holds no U+0000 |
| Bson.ElementNameReadsBack | examples/bson.rs:129-131 | the name a reader takes from an element's bytes is the element's name exactly when the name holds no U+0000 |
| Bson.NulNameIsAmbiguous | examples/bson.rs:130 | as written, a null element named `a` NUL LF `b` and null elements `a` and `b` are different documents with the same bytes |
| BsonEncode.EncodeSizeField | examples/bson.rs:82-83 | nothing is written when the count failed or does not fit `i32`; otherwise the size field, after which the body comes next |
| BsonEncode.EncodeDocument | examples/bson.rs:73-86 | `BsonDocument::encode` leaves the encoder where the document's writes say |
| BsonEncode.BodySize | examples/bson.rs:82 | `document.encoded_size()` is the body's byte count or its error |
| BsonEncode.EncodeBody | examples/bson.rs:74-79 | the elements in order, then the closing 0x00 |
| BsonEncode.EncodeElement | examples/bson.rs:129-189 | `BsonElement::encode` leaves the encoder where the element's writes say |
| BsonEncode.EncodeAtOnce | examples/bson.rs:156-186 | the elements written as one tuple |
| BsonEncode.EncodeBinaryElement | examples/bson.rs:153-155 | the data length is narrowed before anything is written |
| BsonEncode.EncodeStringElement | examples/bson.rs:138-142 | three consecutive `encode` calls perform the writes of one tuple and stop at the same failure |
| BsonEncode.EncodePointerElement | examples/bson.rs:162-166 | likewise for DBPointer |
| BsonEncode.EncodeSymbolElement | examples/bson.rs:168-171 | likewise for symbol |
| BsonEncode.EncodeNestedElement | examples/bson.rs:143-152 | tag, name, then the nested document |
| BsonEncode.EncodeScopeElement | examples/bson.rs:172-180 | tag and name, then the `code_w_s` |
| BsonEncode.EncodeScope | examples/bson.rs:174-179 | the content is counted, size + 4 narrowed and written, then the content written |
| BsonEncode.ScopeSize | examples/bson.rs:177 | `content.encoded_size()` is the content's byte count or its error |
| BsonEncode.EncodeScopeContent | examples/bson.rs:174 | the code as a BSON `string`, then the scope document |
| BsonEncode.SizeThenEncodeDocument | examples/bson.rs:239-245 | the size is that of the bytes the `Vec` receives, and those bytes are the grammar's (`cstring` as in `Bson.DocMatches`); sizing fails exactly when the grammar has no bytes for the document |
| SinkExamples.SizeOfCStr | src/encoders/size.rs:23-26 | `c"hello, world!"` sizes to 14 |
| SinkExamples.WriteStrCount | src/encoders/size.rs:84-89 | formatting "hello world" counts its 11 bytes |
| SinkExamples.EmptySliceFails | src/encoders/slices.rs:31-38 | "hello" into an empty slice fails with `InsufficientSpace` |
| SinkExamples.SliceHello | src/encoders/slices.rs:41-56 | "hello" into a 64-byte slice consumes 5 bytes and `buf[..5] == b"hello"` |
| SinkExamples.VecGrows | src/encoders/alloc.rs:43-50 | `b"hello"` into a `Vec` of capacity 1 gives `b"hello"` |
| SinkExamples.StringGrows | src/encoders/alloc.rs:53-60 | "hello" into a `String` of capacity 1 gives "hello" |

## Left out

- Floating point:
  - the `f32`/`f64` instances of `LE` and `BE`;
  - BSON `Double` and the float-bearing BSON example `{"BSON": ["awesome", 5.05, 1986]}`;
  - JSON `Number` and its `format_args!("{n}")` rendering;
  - JSON arrays of numbers, and the `main` documents that contain numbers.
- `core::fmt` and `std::io`:
  - `src/encodables/fmt.rs`, `src/impls/fmt.rs` and `src/encoders/fmt.rs` only relay to `core::fmt::write`, whose rendering is not visible;
  - `SizeEncoder`'s `write_str` is modelled on its own;
  - JSON's `\u` escape goes through `format_args!`; it is modelled directly as `\u` and four lower-case hexadecimal digits, written as one `str`. In the source the formatted escape reaches the encoder as several `write_str` calls (`\u`, the padding zeros, the digits), so a `&mut [u8]` that runs out in the middle of an escape keeps a prefix of it in the source and none of it in the model.
- `std_io`, `arrayvec` and `bytes` encoders and encodables: they forward to third-party crates.
- `Encoders.SizeEncoder.PutSlice`: the count is a `nat`, so `usize` overflow of the counter is not modelled; the same holds for every size in the model.
- Tuple arities 1 to 26 are modelled as tuples of any length. The requirement that all members share one error type disappears with the single `Error` datatype.
- `Encodables.Holds`: `Cond`'s closure is modelled as a small predicate language (`Pred`) evaluated once on the stored value, not an arbitrary Rust closure. Its emptiness test `IsEmptyValue` is the model's own: it answers `is_empty` for byte slices, `str` and `CStr` as the source's example does, and also gives tuples (`()`), iterators (no items) and options (`None`) an answer, standing for closures such as `Vec::is_empty` or `Option::is_none`; every other value counts as non-empty.
- `new`, `into_inner`, the `From` conversions of `LE`, `BE`, `Cond` and `FromError`, and `Deref`, `AsRef`, `Borrow`, `Debug`, `Display`:
  - these are constructors and destructors of the model's datatypes, so `into_inner(new(x)) == x` holds by construction and has no member of its own;
  - `Flags` holding exactly eight booleans is its type (`FlagArray`).
- `FromError`'s `PartialEq`/`PartialOrd`/`Ord` (`src/combinators/from_error.rs:106-121`):
  - equality of a model `FromError(e)` is datatype equality, i.e. equality of `e`;
  - ordering on encodables is not modelled.
- `Iter` and `Separated` iterate a clone of their collection. Model values are immutable sequences, so "the stored iterable is unchanged" holds trivially.
- `Json`: an object is a sequence of members in the order its `HashMap` yields them. `HashMap` iteration order itself is not modelled.
- `Json.EncodeJsonString`: each escape is one write, whereas the source's `\u` escape is several (see the `format_args!` line above), so the model does not promise the partial contents a full `&mut [u8]` holds after failing inside an escape.
- `Bson.DocMatches`: the grammar's `cstring` is a name's bytes then 0x00, as the source writes it, and admits U+0000 inside the name where BSON 1.1 does not; for a document that is not `Bson.NulFree` the proved bytes are therefore not BSON 1.1 (`Bson.NulNameIsAmbiguous`).
- `Bson.ElementsMatch`: the same `cstring` reading as `Bson.DocMatches`.
- `Bson.ElementMatches`: the same `cstring` reading as `Bson.DocMatches`.
- `BsonEncode.SizeThenEncodeDocument`: the same `cstring` reading as `Bson.DocMatches`.
- `Json.Unescape`: the reader recognises `\uXXXX` only for characters of the Basic Multilingual Plane other than surrogates. This suffices for every escape the encoder writes (all are below U+00A0). Surrogate pairs are not modelled.
- `Json.EncodeJson`: a JSON value is encoded into byte encoders only, not into a `String` encoder, because `JsonString` loops over its escapes with `Iter`, which the source implements for byte encoders only (`E: Encoder`, examples/json.rs:32 and examples/json.rs:55); in the model `Encodables.IsText` accepts no `Iter`.
- `BsonError`: `TooLarge` is `TryFromIntError` and `InsufficientSpace` is `InsufficientSpace`; the `From` conversions are the identity. `From<Infallible>` (unreachable) has no counterpart.
- Nightly specialization (`src/lib.rs:46-52`) is not modelled.
- The `main` functions and their printing: the size-then-encode step of each `main` is modelled (`Json.SizeThenWrite`, `BsonEncode.SizeThenEncodeDocument`); the concrete documents of the BSON `main` contain `Double` values.
- `src/encoders/errors.rs` is a single error constructor (`InsufficientSpace`) with a `Display` text; only the constructor is modelled.

## Revisions

The source holds two revisions side by side: a single `Encoder` trait, and the split into `BaseEncoder`, `StrEncoder` and `ByteEncoder` (`src/lib.rs:91-138`). `Encoder` is read as `ByteEncoder`, and duplicated files share one definition:

- `src/encoders/std_alloc.rs` (older `Vec<u8>`) is `Encoders.VecEncoder`.
- `src/encoders/mod.rs:31-43` (older `()`) is `Encoders.Dest.ToUnit` with `Encoding.RunUnit`.
- `src/impls/primitives.rs` is `Primitives`. Its `char` writes the UTF-8 bytes with one `put_slice` rather than `put_str`; `Primitives.TextAsBytes` proves the two leave every byte encoder alike.
- `src/impls/alloc.rs` and `src/encodables/alloc.rs` are the `Bytes`, `Str`, `CStr` and `Ref` constructors.
- `src/impls/std_alloc.rs` is the same; its `String` writes with `put_slice`, covered by `Primitives.TextAsBytes`.

## Findings

| source | as written | input that shows it | evidently intended | confidence | as-written member | corrected member |
|---|---|---|---|---|---|---|
| examples/bson.rs:130 | `e_name` writes `(&self.e_value, 0u8)`, the name's bytes and 0x00, whatever the name holds; so do the regular expression's strings at examples/bson.rs:161 | a document with one null element named `"a\0\nb"`, and a document with null elements named `"a"` and `"b"`, encode to the same bytes | BSON 1.1's `cstring`, whose bytes hold no 0x00: names and regular expressions without U+0000 (`Bson.NulFree`) | not executed | Bson.NulNameIsAmbiguous | Bson.ElementNameReadsBack |
| src/combinators/flags.rs:71 | `Flags::from(u8)` sets flag i from bit i, while `u8::from(Flags)` (flags.rs:84-86) gives flag i the weight of bit 7 - i | the byte 0x01 becomes flags `[true, false, …]`, which pack to 0x80 | one bit order for both conversions, the one the documented examples fix (flags.rs:17-29): flag i is bit 7 - i | not executed | Flags.NotARoundTrip | Flags.MsbFirstRoundTrip |
| examples/bson.rs:167 | `JavaScriptCode(x)` writes `(13i8, e_name, x)`: the code's bytes bare, with no int32 length and no terminating 0x00 | a document with one code element whose code is `x + "\nb\0"`, and a document with a code element `x` followed by a Null element named `b`, encode to the same bytes | the grammar's `"\x0D" e_name string`, i.e. `BsonString(x)` as for `String` and `Symbol` | not executed | Bson.BareCodeIsAmbiguous | Bson.CodeAsString |

The encoding functions take a flag `fixed`:

- With `fixed` false they write code elements as the source does.
- With `fixed` true they write the corrected form.

`Bson.DocMatches` and `BsonEncode.SizeThenEncodeDocument` prove the grammar's bytes for every document under the corrected form, and under the source's form for every document without a code element. The grammar's `cstring` is a name's bytes then 0x00 whatever the name holds, as the source writes it. Those bytes are BSON 1.1 only for documents whose names and regular expressions hold no U+0000 (`Bson.NulFree`). For other names a reader recovers a different name (`Bson.ElementNameReadsBack`).

The flag conversions are not corrected in place: the encoder uses `u8::from(Flags)` only, and `Flags.FlagsOf` stays the source's `Flags::from(u8)`. `Flags.FlagsOfMsbFirst` is the conversion that `Flags.ToByte` undoes.
