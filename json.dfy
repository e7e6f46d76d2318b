/// The JSON encoder of `examples/json.rs`, built from the library's
/// combinators: string escaping as section 7 of RFC 8259 describes it,
/// and arrays and objects (sections 5 and 4 of RFC 8259) through `Separated`.
module Json {
  import opened Utf8
  import opened Errors
  import opened Encoding
  import opened Encoders
  import opened Encodables
  import opened Encode
  import opened Primitives
  import opened Combinators

  /// A JSON value; an object is the sequence of its members in the order
  /// its map yields them.
  datatype Json =
    | Null
    | Bool(b: bool)
    | String(s: string)
    | Array(items: seq<Json>)
    | Object(members: seq<(string, Json)>)

  // ---- Escaping -------------------------------------------------------------

  /// `char::is_control`: the C0 controls, DEL and the C1 controls.
  predicate IsControl(c: char)
  {
    c as int < 0x20 || (0x7F <= c as int < 0xA0)
  }

  /// The letter of a two-character escape, for the characters that have one.
  function ShortEscape(c: char): Option<char>
  {
    if c == '"' then Some('"')
    else if c == '\\' then Some('\\')
    else if c == '\U{0008}' then Some('b')
    else if c == '\U{000C}' then Some('f')
    else if c == '\n' then Some('n')
    else if c == '\r' then Some('r')
    else if c == '\t' then Some('t')
    else None
  }

  /// A lower-case hexadecimal digit.
  function HexDigit(n: nat): char
    requires n < 16
  {
    if n < 10 then ('0' as int + n) as char else ('a' as int + n - 10) as char
  }

  /// Four lower-case hexadecimal digits, as the format `04x` writes them.
  function Hex4(n: nat): string
    requires n < 0x1_0000
  {
    [HexDigit(n / 0x1000), HexDigit(n / 0x100 % 0x10), HexDigit(n / 0x10 % 0x10), HexDigit(n % 0x10)]
  }

  /// The text one character of a JSON string becomes: the character itself,
  /// or an escape sequence starting with a backslash. Either way it holds no
  /// control character.
  function EscapeText(c: char): (t: string)
    ensures t == [c] || (2 <= |t| && t[0] == '\\')
    ensures forall i :: 0 <= i < |t| ==> !IsControl(t[i])
  {
    match ShortEscape(c)
    case Some(letter) => ['\\', letter]
    case None =>
      if IsControl(c) then
        var n := c as int;
        assert Hex4(n) == [HexDigit(n / 0x1000), HexDigit(n / 0x100 % 0x10), HexDigit(n / 0x10 % 0x10), HexDigit(n % 0x10)];
        ['\\', 'u'] + Hex4(n)
      else [c]
  }

  /// The text between the quotes of a JSON string.
  function Escaped(s: string): string
  {
    if s == [] then [] else EscapeText(s[0]) + Escaped(s[1..])
  }

  /// A JSON string literal.
  function Quoted(s: string): string
  {
    "\"" + Escaped(s) + "\""
  }

  /// What the loop of `JsonString::encode` encodes for one character: an
  /// escape sequence as a `str`, or the character itself
  /// (`examples/json.rs:39-48`). The model makes either a single text write
  /// of `EscapeText(c)`; the source's `\u` escape goes through
  /// `format_args!` and reaches the encoder as several writes.
  function Escape(c: char): (e: Encodable)
    ensures IsLeaf(e) && LeafWrites(e) == Emit(Text(EscapeText(c)))
  {
    match ShortEscape(c)
    case Some(letter) => Str(['\\', letter])
    case None => if IsControl(c) then Str(['\\', 'u'] + Hex4(c as int)) else Character(c)
  }

  function Escapes(s: string): (items: seq<Encodable>)
    ensures |items| == |s|
  {
    seq(|s|, i requires 0 <= i < |s| => Escape(s[i]))
  }

  /// `JsonString(s)`: a quote, the escaped characters, a quote.
  function JsonStringEnc(s: string): Encodable
  {
    Tuple([Character('"'), Iter(Escapes(s)), Character('"')])
  }

  // ---- Values ---------------------------------------------------------------

  /// What `Json::encode` encodes for each variant (`examples/json.rs:60-78`).
  function JsonEnc(j: Json): Encodable
    decreases j
  {
    match j
    case Null => Str("null")
    case Bool(b) => Str(if b then "true" else "false")
    case String(s) => JsonStringEnc(s)
    case Array(items) => Tuple([Character('['), Separated(ItemEncs(items), Character(',')), Character(']')])
    case Object(members) => Tuple([Character('{'), Separated(MemberEncs(members), Character(',')), Character('}')])
  }

  function ItemEncs(items: seq<Json>): (r: seq<Encodable>)
    ensures |r| == |items|
    decreases items
  {
    if items == [] then [] else [JsonEnc(items[0])] + ItemEncs(items[1..])
  }

  /// `(JsonString(k), ':', v)` for each member.
  function MemberEncs(members: seq<(string, Json)>): (r: seq<Encodable>)
    ensures |r| == |members|
    decreases members
  {
    if members == [] then []
    else
      var (key, value) := members[0];
      assert value < members[0];
      [Tuple([JsonStringEnc(key), Character(':'), JsonEnc(value)])] + MemberEncs(members[1..])
  }

  /// The JSON text of a value, written out as sections 4, 5 and 7 of
  /// RFC 8259 describe it.
  function JsonText(j: Json): string
    decreases j
  {
    match j
    case Null => "null"
    case Bool(b) => if b then "true" else "false"
    case String(s) => Quoted(s)
    case Array(items) => "[" + JoinText(ItemTexts(items), ",") + "]"
    case Object(members) => "{" + JoinText(MemberTexts(members), ",") + "}"
  }

  function ItemTexts(items: seq<Json>): (r: seq<string>)
    ensures |r| == |items|
    decreases items
  {
    if items == [] then [] else [JsonText(items[0])] + ItemTexts(items[1..])
  }

  function MemberTexts(members: seq<(string, Json)>): (r: seq<string>)
    ensures |r| == |members|
    decreases members
  {
    if members == [] then []
    else
      var (key, value) := members[0];
      assert value < members[0];
      [Quoted(key) + ":" + JsonText(value)] + MemberTexts(members[1..])
  }

  /// Texts with `sep` between each two neighbours.
  function JoinText(xs: seq<string>, sep: string): string
  {
    if xs == [] then []
    else if |xs| == 1 then xs[0]
    else xs[0] + sep + JoinText(xs[1..], sep)
  }

  /// The UTF-8 bytes of each text.
  function EncodeEach(xs: seq<string>): (r: seq<seq<u8>>)
    ensures |r| == |xs|
  {
    seq(|xs|, i requires 0 <= i < |xs| => Utf8.Encode(xs[i]))
  }

  // ---- Reading escapes back ---------------------------------------------------

  /// The character a two-character escape stands for (section 7 of RFC 8259).
  function ShortUnescape(letter: char): Option<char>
  {
    if letter == '"' then Some('"')
    else if letter == '\\' then Some('\\')
    else if letter == '/' then Some('/')
    else if letter == 'b' then Some('\U{0008}')
    else if letter == 'f' then Some('\U{000C}')
    else if letter == 'n' then Some('\n')
    else if letter == 'r' then Some('\r')
    else if letter == 't' then Some('\t')
    else None
  }

  predicate IsHexDigit(c: char)
  {
    ('0' <= c <= '9') || ('a' <= c <= 'f') || ('A' <= c <= 'F')
  }

  function HexValue(c: char): (v: nat)
    requires IsHexDigit(c)
    ensures v < 16
  {
    if '0' <= c <= '9' then c as int - '0' as int
    else if 'a' <= c <= 'f' then c as int - 'a' as int + 10
    else c as int - 'A' as int + 10
  }

  /// A `\uXXXX` escape at the head of `t`, when there is one that names a
  /// character of the Basic Multilingual Plane other than a surrogate.
  function UnicodeEscape(t: string): Option<char>
  {
    if |t| >= 6 && t[0] == '\\' && t[1] == 'u' &&
       IsHexDigit(t[2]) && IsHexDigit(t[3]) && IsHexDigit(t[4]) && IsHexDigit(t[5])
    then
      var v := HexValue(t[2]) * 0x1000 + HexValue(t[3]) * 0x100 + HexValue(t[4]) * 0x10 + HexValue(t[5]);
      if v < 0xD800 || 0xE000 <= v then Some(v as char) else None
    else None
  }

  /// The characters the text between a JSON string's quotes stands for, as a
  /// reader following section 7 of RFC 8259 recovers them.
  function Unescape(t: string): string
    decreases |t|
  {
    if t == [] then []
    else if t[0] == '\\' && |t| >= 2 && ShortUnescape(t[1]).Some? then
      [ShortUnescape(t[1]).value] + Unescape(t[2..])
    else if UnicodeEscape(t).Some? then
      [UnicodeEscape(t).value] + Unescape(t[6..])
    else
      [t[0]] + Unescape(t[1..])
  }

  // ---- Properties of escaping ---------------------------------------------------

  lemma HexDigitValue(n: nat)
    requires n < 16
    ensures IsHexDigit(HexDigit(n)) && HexValue(HexDigit(n)) == n
  {
  }

  /// One escaped character, followed by anything, reads back as that
  /// character followed by what the rest reads as.
  lemma UnescapeOne(c: char, rest: string)
    ensures Unescape(EscapeText(c) + rest) == [c] + Unescape(rest)
  {
    if ShortEscape(c).Some? {
      UnescapeShort(c, rest);
    } else if IsControl(c) {
      UnescapeControl(c, rest);
    } else {
      assert (EscapeText(c) + rest)[1..] == rest;
    }
  }

  /// A two-character escape reads back as its character.
  lemma UnescapeShort(c: char, rest: string)
    requires ShortEscape(c).Some?
    ensures Unescape(EscapeText(c) + rest) == [c] + Unescape(rest)
  {
    assert (EscapeText(c) + rest)[2..] == rest;
  }

  /// A `\u00XX` escape of a control character reads back as that character.
  lemma UnescapeControl(c: char, rest: string)
    requires ShortEscape(c).None? && IsControl(c)
    ensures Unescape(EscapeText(c) + rest) == [c] + Unescape(rest)
  {
    var t := EscapeText(c) + rest;
    var n := c as int;
    HexDigitValue(n / 0x10 % 0x10);
    HexDigitValue(n % 0x10);
    HexDigitValue(0);
    assert n / 0x1000 == 0 && n / 0x100 % 0x10 == 0;
    assert n / 0x10 % 0x10 == n / 0x10;
    assert t[..6] == ['\\', 'u', '0', '0', HexDigit(n / 0x10), HexDigit(n % 0x10)];
    assert UnicodeEscape(t) == Some(c);
    assert t[6..] == rest;
  }

  /// Escaping loses nothing: reading the escaped text back gives the string
  /// (section 7 of RFC 8259).
  lemma {:induction false} UnescapeEscaped(s: string)
    ensures Unescape(Escaped(s)) == s
  {
    if s != [] {
      UnescapeOne(s[0], Escaped(s[1..]));
      UnescapeEscaped(s[1..]);
    }
  }

  /// The escaped text holds no control character, so none reaches the
  /// output unescaped (section 7 of RFC 8259 requires this of U+0000 to
  /// U+001F).
  lemma {:induction false} EscapedHasNoControl(s: string)
    ensures forall i :: 0 <= i < |Escaped(s)| ==> !IsControl(Escaped(s)[i])
  {
    if s != [] {
      EscapedHasNoControl(s[1..]);
      assert Escaped(s) == EscapeText(s[0]) + Escaped(s[1..]);
    }
  }

  // ---- The bytes written ------------------------------------------------------------

  /// A character encodes as the UTF-8 bytes of the one-character string.
  lemma CharBytes(c: char)
    ensures Encoded(Character(c)) == Ok(Utf8.Encode([c]))
  {
    CharacterEncoding(c);
    assert [c][1..] == [];
    assert Utf8.Encode([c]) == EncodeChar(c) + Utf8.Encode([]);
    assert Utf8.Encode([c]) == EncodeChar(c);
  }

  /// The bytes of a text between two one-character delimiters.
  lemma Enclosed(open: char, mid: string, close: char)
    ensures Utf8.Encode([open] + mid + [close]) == Utf8.Encode([open]) + Utf8.Encode(mid) + Utf8.Encode([close])
  {
    EncodeAppend([open] + mid, [close]);
    EncodeAppend([open], mid);
  }

  /// One character of a JSON string writes the UTF-8 bytes of its escape.
  lemma EscapeBytes(c: char)
    ensures Encoded(Escape(c)) == Ok(Utf8.Encode(EscapeText(c)))
  {
    match ShortEscape(c)
    case Some(letter) =>
      StrEncoding(['\\', letter]);
    case None =>
      if IsControl(c) {
        StrEncoding(['\\', 'u'] + Hex4(c as int));
      } else {
        CharBytes(c);
      }
  }

  /// The escapes of a string all succeed and write the bytes of its escaped
  /// text.
  lemma {:induction false} EscapesBytes(s: string)
    ensures AllOk(Escapes(s))
    ensures Concat(Outputs(Escapes(s))) == Utf8.Encode(Escaped(s))
  {
    var items := Escapes(s);
    forall i | 0 <= i < |items|
      ensures Encoded(items[i]).Ok?
    {
      EscapeBytes(s[i]);
    }
    if s != [] {
      assert items[1..] == Escapes(s[1..]);
      OutputsCons(items);
      EscapesBytes(s[1..]);
      EscapeBytes(s[0]);
      EncodeAppend(EscapeText(s[0]), Escaped(s[1..]));
    }
  }

  /// `JsonString(s)` writes the bytes of the quoted, escaped string.
  lemma JsonStringBytes(s: string)
    ensures Encoded(JsonStringEnc(s)) == Ok(Utf8.Encode(Quoted(s)))
  {
    EscapesBytes(s);
    IterEncoding(Escapes(s));
    CharBytes('"');
    TripleConcat(Character('"'), Iter(Escapes(s)), Character('"'));
    Enclosed('"', Escaped(s), '"');
  }

  /// The UTF-8 bytes of texts joined by a separator are the bytes of each
  /// text joined by the separator's bytes.
  lemma {:induction false} JoinEncode(xs: seq<string>, sep: string)
    ensures Utf8.Encode(JoinText(xs, sep)) == Join(EncodeEach(xs), Utf8.Encode(sep))
  {
    if |xs| == 1 {
      assert EncodeEach(xs) == [Utf8.Encode(xs[0])];
    } else if |xs| > 1 {
      JoinEncode(xs[1..], sep);
      assert EncodeEach(xs[1..]) == EncodeEach(xs)[1..];
      EncodeAppend(xs[0] + sep, JoinText(xs[1..], sep));
      EncodeAppend(xs[0], sep);
    }
  }

  /// Every value writes the UTF-8 bytes of its JSON text.
  lemma {:induction false} JsonBytes(j: Json)
    ensures Encoded(JsonEnc(j)) == Ok(Utf8.Encode(JsonText(j)))
    decreases j, 1
  {
    match j
    case Null =>
      StrEncoding("null");
    case Bool(b) =>
      StrEncoding(if b then "true" else "false");
    case String(s) =>
      JsonStringBytes(s);
    case Array(items) =>
      ItemsBytes(items);
      Bracketed('[', ItemEncs(items), ItemTexts(items), ']');
    case Object(members) =>
      MembersBytes(members);
      Bracketed('{', MemberEncs(members), MemberTexts(members), '}');
  }

  /// `(open, Separated(encs, ','), close)` writes the bytes of the texts
  /// joined by commas between the delimiters.
  lemma Bracketed(open: char, encs: seq<Encodable>, texts: seq<string>, close: char)
    requires AllOk(encs) && Outputs(encs) == EncodeEach(texts)
    ensures Encoded(Tuple([Character(open), Separated(encs, Character(',')), Character(close)]))
      == Ok(Utf8.Encode([open] + JoinText(texts, ",") + [close]))
  {
    CharBytes(open);
    CharBytes(',');
    CharBytes(close);
    SeparatedJoins(encs, Character(','));
    JoinEncode(texts, ",");
    TripleConcat(Character(open), Separated(encs, Character(',')), Character(close));
    Enclosed(open, JoinText(texts, ","), close);
  }

  /// The items of an array all succeed, each with the bytes of its text.
  lemma ItemsBytes(items: seq<Json>)
    ensures AllOk(ItemEncs(items)) && Outputs(ItemEncs(items)) == EncodeEach(ItemTexts(items))
    decreases items, 0
  {
    forall i | 0 <= i < |items|
      ensures Encoded(ItemEncs(items)[i]) == Ok(EncodeEach(ItemTexts(items))[i])
    {
      ItemAt(items, i);
      JsonBytes(items[i]);
    }
  }

  lemma {:induction false} ItemAt(items: seq<Json>, i: nat)
    requires i < |items|
    ensures ItemEncs(items)[i] == JsonEnc(items[i]) && ItemTexts(items)[i] == JsonText(items[i])
  {
    if i > 0 {
      ItemAt(items[1..], i - 1);
    }
  }

  /// The members of an object all succeed, each with the bytes of its
  /// `"key":value` text.
  lemma MembersBytes(members: seq<(string, Json)>)
    ensures AllOk(MemberEncs(members)) && Outputs(MemberEncs(members)) == EncodeEach(MemberTexts(members))
    decreases members, 0
  {
    forall i | 0 <= i < |members|
      ensures Encoded(MemberEncs(members)[i]) == Ok(EncodeEach(MemberTexts(members))[i])
    {
      MemberAt(members, i);
      var (key, value) := members[i];
      assert value < members[i];
      JsonStringBytes(key);
      CharBytes(':');
      JsonBytes(value);
      TripleConcat(JsonStringEnc(key), Character(':'), JsonEnc(value));
      EncodeAppend(Quoted(key) + ":", JsonText(value));
      EncodeAppend(Quoted(key), ":");
    }
  }

  lemma {:induction false} MemberAt(members: seq<(string, Json)>, i: nat)
    requires i < |members|
    ensures MemberEncs(members)[i]
      == Tuple([JsonStringEnc(members[i].0), Character(':'), JsonEnc(members[i].1)])
    ensures MemberTexts(members)[i] == Quoted(members[i].0) + ":" + JsonText(members[i].1)
  {
    if i > 0 {
      MemberAt(members[1..], i - 1);
    }
  }

  /// The output is valid UTF-8 (`examples/json.rs:104`).
  lemma JsonIsUtf8(j: Json)
    ensures Encoded(JsonEnc(j)).Ok? && WellFormed(Encoded(JsonEnc(j)).value)
  {
    JsonBytes(j);
    EncodeValid(JsonText(j));
  }

  // ---- The tests of `examples/json.rs` ------------------------------------------

  /// Text with nothing to escape.
  predicate Plain(s: string)
  {
    forall i :: 0 <= i < |s| ==> ShortEscape(s[i]).None? && !IsControl(s[i])
  }

  lemma {:induction false} PlainEscaped(s: string)
    requires Plain(s)
    ensures Escaped(s) == s
  {
    if s != [] {
      PlainEscaped(s[1..]);
    }
  }

  /// A value whose text is ASCII writes one byte per character of it.
  lemma AsciiJson(j: Json, t: string)
    requires JsonText(j) == t && IsAscii(t)
    ensures Encoded(JsonEnc(j)) == Ok(Ascii(t))
  {
    JsonBytes(j);
    EncodeAscii(t);
  }

  /// `null` and `true` (`examples/json.rs:121-129`, `187-192`).
  lemma NullExample()
    ensures Encoded(JsonEnc(Null)) == Ok(Ascii("null"))
  {
    AsciiJson(Null, "null");
  }

  lemma TrueExample()
    ensures Encoded(JsonEnc(Bool(true))) == Ok(Ascii("true"))
  {
    AsciiJson(Bool(true), "true");
  }

  lemma FalseExample()
    ensures Encoded(JsonEnc(Bool(false))) == Ok(Ascii("false"))
  {
    AsciiJson(Bool(false), "false");
  }

  /// `[]` and `{}` (`examples/json.rs:161-166`, `180-185`).
  lemma EmptyArrayExample()
    ensures Encoded(JsonEnc(Array([]))) == Ok(Ascii("[]"))
  {
    AsciiJson(Array([]), "[]");
  }

  lemma EmptyObjectExample()
    ensures Encoded(JsonEnc(Object([]))) == Ok(Ascii("{}"))
  {
    AsciiJson(Object([]), "{}");
  }

  /// A string with nothing to escape is written between quotes as it is
  /// (`examples/json.rs:138-146` with `"Hello, World!"`).
  lemma PlainString(s: string)
    requires Plain(s)
    ensures JsonText(String(s)) == "\"" + s + "\""
  {
    PlainEscaped(s);
  }

  /// A one-member object whose key and string value need no escaping
  /// (`examples/json.rs:168-178` with `"name"` and `"John Doe"`).
  lemma PlainMember(key: string, value: string)
    requires Plain(key) && Plain(value)
    ensures JsonText(Object([(key, String(value))])) == "{\"" + key + "\":\"" + value + "\"}"
  {
    PlainEscaped(key);
    PlainEscaped(value);
    OneMember(key, String(value));
    MemberLayout(key, value);
  }

  /// A one-member object is its member's text in braces.
  lemma OneMember(key: string, value: Json)
    ensures JsonText(Object([(key, value)])) == "{" + (Quoted(key) + ":" + JsonText(value)) + "}"
  {
    var members := [(key, value)];
    assert members[1..] == [];
    assert MemberTexts(members) == [Quoted(key) + ":" + JsonText(value)];
  }

  lemma MemberLayout(key: string, value: string)
    ensures "{" + ("\"" + key + "\"" + ":" + ("\"" + value + "\"")) + "}" == "{\"" + key + "\":\"" + value + "\"}"
  {
  }

  const Greeting: string := "Hello, World!"
  const Name: string := "name"
  const JohnDoe: string := "John Doe"

  lemma HelloExample()
    ensures JsonText(String(Greeting)) == "\"Hello, World!\""
  {
    GreetingIsPlain();
    PlainString(Greeting);
    QuotedGreeting();
  }

  lemma QuotedGreeting()
    ensures "\"" + Greeting + "\"" == "\"Hello, World!\""
  {
  }

  lemma GreetingIsPlain()
    ensures Plain(Greeting)
  {
    forall i | 0 <= i < |Greeting|
      ensures ShortEscape(Greeting[i]).None? && !IsControl(Greeting[i])
    {
      assert ' ' <= Greeting[i] <= 'r';
    }
  }

  lemma NameExample()
    ensures JsonText(Object([(Name, String(JohnDoe))])) == "{\"name\":\"John Doe\"}"
  {
    NameIsPlain();
    JohnDoeIsPlain();
    PlainMember(Name, JohnDoe);
    NameText();
  }

  lemma NameIsPlain()
    ensures Plain(Name)
  {
    forall i | 0 <= i < |Name|
      ensures ShortEscape(Name[i]).None? && !IsControl(Name[i])
    {
      assert 'a' <= Name[i] <= 'n';
    }
  }

  lemma JohnDoeIsPlain()
    ensures Plain(JohnDoe)
  {
    forall i | 0 <= i < |JohnDoe|
      ensures ShortEscape(JohnDoe[i]).None? && !IsControl(JohnDoe[i])
    {
      assert ' ' <= JohnDoe[i] <= 'o';
    }
  }

  lemma NameText()
    ensures "{\"" + Name + "\":\"" + JohnDoe + "\"}" == "{\"name\":\"John Doe\"}"
  {
  }

  lemma EscapedOne(c: char)
    ensures Escaped([c]) == EscapeText(c)
  {
    assert [c][1..] == [];
  }

  /// The awkward key of `examples/json.rs:95`: a line feed becomes `\n`, a
  /// backslash `\\` and the NUL character `\u0000`.
  lemma EscapeExample(before: string, after: string)
    requires Plain(before) && Plain(after)
    ensures Escaped(before + ['\n'] + after + ['\\', '\U{0000}'])
      == before + ['\\', 'n'] + after + ['\\', '\\', '\\', 'u', '0', '0', '0', '0']
  {
    EscapedAppend(before + ['\n'] + after, ['\\', '\U{0000}']);
    EscapedAppend(before + ['\n'], after);
    EscapedAppend(before, ['\n']);
    PlainEscaped(before);
    PlainEscaped(after);
    EscapedOne('\n');
    BackslashNul();
  }

  lemma BackslashNul()
    ensures Escaped(['\\', '\U{0000}']) == ['\\', '\\', '\\', 'u', '0', '0', '0', '0']
  {
    EscapedAppend(['\\'], ['\U{0000}']);
    assert ['\\'] + ['\U{0000}'] == ['\\', '\U{0000}'];
    EscapedOne('\\');
    EscapedOne('\U{0000}');
    assert Hex4(0) == ['0', '0', '0', '0'];
  }

  lemma {:induction false} EscapedAppend(a: string, b: string)
    ensures Escaped(a + b) == Escaped(a) + Escaped(b)
  {
    if a == [] {
      assert a + b == b;
    } else {
      assert (a + b)[1..] == a[1..] + b;
      EscapedAppend(a[1..], b);
    }
  }

  // ---- Writing into an encoder ---------------------------------------------------

  /// An escape is one text write either way.
  lemma EscapeWrites(c: char)
    ensures Writes(Escape(c)) == Emit(Text(EscapeText(c)))
  {
  }

  /// The writes of `JsonStringEnc(s)`: the opening quote, then the escapes,
  /// then the closing quote.
  lemma JsonStringWrites(s: string)
    ensures Writes(JsonStringEnc(s))
      == Then(Emit(Text(['"'])), Then(WritesAll(Escapes(s)), Emit(Text(['"']))))
  {
    var quote := Character('"');
    var items := [quote, Iter(Escapes(s)), quote];
    assert Writes(JsonStringEnc(s)) == WritesAll(items);
    assert Writes(quote) == Emit(Text(['"']));
    assert Writes(Iter(Escapes(s))) == WritesAll(Escapes(s));
    assert items[1..] == [Iter(Escapes(s)), quote];
    assert items[1..][1..] == [quote];
    assert [quote][1..] == [];
    assert WritesAll([quote]) == Then(Emit(Text(['"'])), Done());
    ThenDone(Emit(Text(['"'])));
    assert WritesAll(items[1..]) == Then(WritesAll(Escapes(s)), Emit(Text(['"'])));
  }

  /// What is left to write of `JsonString(s)` once its opening quote and
  /// its first `i` characters are written.
  ghost function Pending(s: string, i: nat): Trace
    requires i <= |s|
  {
    Then(WritesAll(Escapes(s)[i..]), Emit(Text(['"'])))
  }

  /// The opening quote, then the escapes and the closing quote.
  lemma RunOpening(total: Step, before: Sink, after: Sink, r: Outcome, s: string)
    requires CanTake(before, []) && !before.TextSink?
    requires total == Run(before, Writes(JsonStringEnc(s))) && Step(after, r) == Put(before, Text(['"']))
    ensures r.Fail? ==> total == Step(after, r)
    ensures r.Pass? ==> CanTake(after, []) && !after.TextSink? && total == Run(after, Pending(s, 0))
  {
    JsonStringWrites(s);
    RunThen(before, Emit(Text(['"'])), Then(WritesAll(Escapes(s)), Emit(Text(['"']))));
    RunEmit(before, Text(['"']));
    assert Escapes(s)[0..] == Escapes(s);
  }

  /// One character's escape, and the rest after it.
  lemma RunEscape(total: Step, before: Sink, after: Sink, r: Outcome, s: string, i: nat)
    requires i < |s| && CanTake(before, []) && !before.TextSink?
    requires total == Run(before, Pending(s, i)) && Step(after, r) == Put(before, Text(EscapeText(s[i])))
    ensures r.Fail? ==> total == Step(after, r)
    ensures r.Pass? ==> CanTake(after, []) && !after.TextSink? && total == Run(after, Pending(s, i + 1))
  {
    var escapes := Escapes(s);
    var closing := Emit(Text(['"']));
    assert escapes[i..][0] == Escape(s[i]);
    assert escapes[i..][1..] == escapes[i + 1..];
    var later := Then(WritesAll(escapes[i + 1..]), closing);
    ThenAssociative(Writes(Escape(s[i])), WritesAll(escapes[i + 1..]), closing);
    EscapeWrites(s[i]);
    RunThen(before, Emit(Text(EscapeText(s[i]))), later);
    RunEmit(before, Text(EscapeText(s[i])));
  }

  /// Once every character is written, only the closing quote is left.
  lemma RunClosing(total: Step, before: Sink, after: Sink, r: Outcome, s: string)
    requires CanTake(before, []) && !before.TextSink?
    requires total == Run(before, Pending(s, |s|)) && Step(after, r) == Put(before, Text(['"']))
    ensures total == Step(after, r)
  {
    assert Escapes(s)[|s|..] == [];
    ThenDone(Emit(Text(['"'])));
    RunEmit(before, Text(['"']));
  }

  /// `JsonString::encode` (`examples/json.rs:35-52`): the opening quote, the
  /// encoding of each character — its escape as a `str`, or the character
  /// itself, as `EscapeText` chooses, each modelled as one write — then the
  /// closing quote, returning the first error at once. The encoder ends
  /// where running the combinator form `JsonStringEnc(s)` leaves it, which
  /// `JsonStringBytes` relates to the quoted, escaped text.
  method EncodeJsonString(s: string, d: Dest) returns (r: Outcome)
    requires Valid(d) && !d.ToString?
    modifies Repr(d)
    ensures Valid(d)
    ensures Step(State(d), r) == Run(old(State(d)), Writes(JsonStringEnc(s)))
  {
    ghost var total := Run(State(d), Writes(JsonStringEnc(s)));
    ghost var before := State(d);
    r := PutStr(d, ['"']);
    RunOpening(total, before, State(d), r, s);
    if r.Fail? {
      return;
    }
    var i := 0;
    while i < |s|
      invariant 0 <= i <= |s| && Valid(d)
      invariant total == Run(State(d), Pending(s, i))
    {
      before := State(d);
      r := PutStr(d, EscapeText(s[i]));
      RunEscape(total, before, State(d), r, s, i);
      if r.Fail? {
        return;
      }
      i := i + 1;
    }
    before := State(d);
    r := PutStr(d, ['"']);
    RunClosing(total, before, State(d), r, s);
  }

  /// `Json::encode` (`examples/json.rs:59-79`): a keyword for `null` and the
  /// booleans, `JsonString` for a string, and the bracketed `Separated`
  /// combinators for arrays and objects.
  method EncodeJson(j: Json, d: Dest) returns (r: Outcome)
    requires Valid(d) && !d.ToString?
    modifies Repr(d)
    ensures Valid(d)
    ensures Step(State(d), r) == Run(old(State(d)), Writes(JsonEnc(j)))
  {
    ghost var before := State(d);
    match j
    case Null =>
      r := PutStr(d, "null");
      RunEmit(before, Text("null"));
    case Bool(b) =>
      r := PutStr(d, if b then "true" else "false");
      RunEmit(before, Text(if b then "true" else "false"));
    case String(s) =>
      r := EncodeJsonString(s, d);
    case Array(_) =>
      r := Encode.Encode(JsonEnc(j), d);
    case Object(_) =>
      r := Encode.Encode(JsonEnc(j), d);
  }

  /// `main` of `examples/json.rs:82-113`: the size from a counting pass, then
  /// the value encoded into a `Vec<u8>` of that capacity. The bytes are the
  /// UTF-8 form of the JSON text, hence valid UTF-8, and exactly as many as
  /// counted.
  method SizeThenWrite(j: Json) returns (size: nat, bytes: seq<u8>)
    ensures bytes == Utf8.Encode(JsonText(j))
    ensures WellFormed(bytes) && |bytes| == size
  {
    JsonBytes(j);
    EncodeValid(JsonText(j));
    var counter := new SizeEncoder();
    var counted := EncodeJson(j, ToSize(counter));
    RunSize(0, Writes(JsonEnc(j)));
    size := counter.Size();
    var buf := new VecEncoder(size);
    var written := EncodeJson(j, ToVec(buf));
    RunVec([], Writes(JsonEnc(j)));
    bytes := buf.contents;
  }
}
