/// Bytes and the UTF-8 transformation format (RFC 3629).
///
/// Rust's `char::encode_utf8` and `str::as_bytes` are what the encoders use to
/// turn text into bytes; this module gives them a definition, proves that its
/// output is well formed in the sense of section 4 of RFC 3629 and that every
/// encoded character decodes back to its scalar value.
module Utf8 {

  /// An octet, Rust's `u8`.
  newtype u8 = x: int | 0 <= x < 256

  /// Byte strings concatenate associatively.
  lemma Regroup(a: seq<u8>, b: seq<u8>, c: seq<u8>)
    ensures a + (b + c) == a + b + c
  {
  }

  /// A continuation byte, `10xxxxxx`.
  predicate IsTail(b: u8) {
    0x80 <= b < 0xC0
  }

  /// The UTF-8 form of one Unicode scalar value (section 3 of RFC 3629):
  /// one to four bytes, the leading byte announcing the length.
  function EncodeChar(c: char): (bytes: seq<u8>)
    ensures 1 <= |bytes| <= 4
    ensures |bytes| == 1 <==> c as int < 0x80
    ensures |bytes| == 2 <==> 0x80 <= c as int < 0x800
    ensures |bytes| == 3 <==> 0x800 <= c as int < 0x1_0000
    ensures |bytes| == 4 <==> 0x1_0000 <= c as int
  {
    var n := c as int;
    if n < 0x80 then
      [n as u8]
    else if n < 0x800 then
      [(0xC0 + n / 0x40) as u8, (0x80 + n % 0x40) as u8]
    else if n < 0x1_0000 then
      [(0xE0 + n / 0x1000) as u8, (0x80 + (n / 0x40) % 0x40) as u8, (0x80 + n % 0x40) as u8]
    else
      [(0xF0 + n / 0x4_0000) as u8, (0x80 + (n / 0x1000) % 0x40) as u8,
       (0x80 + (n / 0x40) % 0x40) as u8, (0x80 + n % 0x40) as u8]
  }

  /// The UTF-8 bytes of a string, `str::as_bytes`: at least one byte per
  /// character.
  function Encode(s: string): (bytes: seq<u8>)
    ensures |s| <= |bytes|
  {
    if s == [] then [] else EncodeChar(s[0]) + Encode(s[1..])
  }

  /// The number of bytes a leading byte announces; 0 for a byte that cannot
  /// start a character (a continuation byte, 0xC0, 0xC1, 0xF5..0xFF).
  function SequenceLength(lead: u8): nat
  {
    if lead < 0x80 then 1
    else if 0xC2 <= lead < 0xE0 then 2
    else if 0xE0 <= lead < 0xF0 then 3
    else if 0xF0 <= lead < 0xF5 then 4
    else 0
  }

  /// One character as the `UTF8-char` production of section 4 of RFC 3629
  /// allows it: no overlong form, no surrogate, nothing above U+10FFFF.
  predicate WellFormedChar(b: seq<u8>)
  {
    if |b| == 1 then
      b[0] < 0x80
    else if |b| == 2 then
      0xC2 <= b[0] <= 0xDF && IsTail(b[1])
    else if |b| == 3 then
      IsTail(b[2]) &&
      ((b[0] == 0xE0 && 0xA0 <= b[1] <= 0xBF) ||
       ((0xE1 <= b[0] <= 0xEC || 0xEE <= b[0] <= 0xEF) && IsTail(b[1])) ||
       (b[0] == 0xED && 0x80 <= b[1] <= 0x9F))
    else if |b| == 4 then
      IsTail(b[2]) && IsTail(b[3]) &&
      ((b[0] == 0xF0 && 0x90 <= b[1] <= 0xBF) ||
       (0xF1 <= b[0] <= 0xF3 && IsTail(b[1])) ||
       (b[0] == 0xF4 && 0x80 <= b[1] <= 0x8F))
    else
      false
  }

  /// A byte string that splits into well-formed characters, each starting
  /// with the length its leading byte announces (the `UTF8-octets` production).
  predicate WellFormed(b: seq<u8>)
    decreases |b|
  {
    |b| == 0 ||
    (var n := SequenceLength(b[0]);
     0 < n <= |b| && WellFormedChar(b[..n]) && WellFormed(b[n..]))
  }

  /// The scalar value a well-formed character's bytes carry.
  function DecodeChar(b: seq<u8>): int
    requires 1 <= |b| <= 4
  {
    if |b| == 1 then b[0] as int
    else if |b| == 2 then (b[0] as int - 0xC0) * 0x40 + (b[1] as int - 0x80)
    else if |b| == 3 then
      (b[0] as int - 0xE0) * 0x1000 + (b[1] as int - 0x80) * 0x40 + (b[2] as int - 0x80)
    else
      (b[0] as int - 0xF0) * 0x4_0000 + (b[1] as int - 0x80) * 0x1000
      + (b[2] as int - 0x80) * 0x40 + (b[3] as int - 0x80)
  }

  lemma SixBitGroups(n: nat)
    ensures n / 0x40 % 0x40 == (n % 0x1000) / 0x40
    ensures n / 0x1000 % 0x40 == (n % 0x4_0000) / 0x1000
    ensures n == n / 0x1000 * 0x1000 + (n % 0x1000) / 0x40 * 0x40 + n % 0x40
    ensures n == n / 0x4_0000 * 0x4_0000 + (n % 0x4_0000) / 0x1000 * 0x1000 + (n % 0x1000) / 0x40 * 0x40 + n % 0x40
  {
    var a, m := n % 0x40, n / 0x40;
    assert n == m * 0x40 + a;
    var b, k := m % 0x40, m / 0x40;
    assert m == k * 0x40 + b;
    assert n == k * 0x1000 + (b * 0x40 + a);
    DivModUnique(n, 0x1000, k, b * 0x40 + a);
    DivModUnique(n % 0x1000, 0x40, b, a);
    var c, h := k % 0x40, k / 0x40;
    assert k == h * 0x40 + c;
    assert n == h * 0x4_0000 + (c * 0x1000 + b * 0x40 + a);
    DivModUnique(n, 0x4_0000, h, c * 0x1000 + b * 0x40 + a);
    DivModUnique(n % 0x4_0000, 0x1000, c, b * 0x40 + a);
  }

  lemma DivModUnique(n: int, d: int, q: int, r: int)
    requires 0 < d && 0 <= r < d && n == q * d + r
    ensures n / d == q && n % d == r
  {
    var q', r' := n / d, n % d;
    assert n == q' * d + r';
    if q > q' {
      AtLeastOnce(q - q', d);
    } else if q < q' {
      AtLeastOnce(q' - q, d);
    }
  }

  lemma {:induction false} AtLeastOnce(t: int, d: int)
    requires 1 <= t && 0 < d
    ensures d <= t * d
    decreases t
  {
    if t > 1 {
      AtLeastOnce(t - 1, d);
      assert t * d == (t - 1) * d + d;
    }
  }

  /// Every encoded character is well formed and announces its own length.
  lemma EncodeCharWellFormed(c: char)
    ensures SequenceLength(EncodeChar(c)[0]) == |EncodeChar(c)|
    ensures WellFormedChar(EncodeChar(c))
  {
    var n := c as int;
    SixBitGroups(n);
  }

  /// Decoding an encoded character gives back its scalar value.
  lemma DecodeEncodeChar(c: char)
    ensures DecodeChar(EncodeChar(c)) == c as int
  {
    SixBitGroups(c as int);
  }

  /// `as_bytes` of a concatenation is the concatenation of the `as_bytes`.
  lemma {:induction false} EncodeAppend(a: string, b: string)
    ensures Encode(a + b) == Encode(a) + Encode(b)
  {
    if a == [] {
      assert a + b == b;
    } else {
      assert (a + b)[1..] == a[1..] + b;
      EncodeAppend(a[1..], b);
    }
  }

  /// The bytes of any string are valid UTF-8.
  lemma {:induction false} EncodeValid(s: string)
    ensures WellFormed(Encode(s))
  {
    if s != [] {
      var head := EncodeChar(s[0]);
      var bytes := Encode(s);
      EncodeCharWellFormed(s[0]);
      assert bytes == head + Encode(s[1..]);
      assert bytes[..|head|] == head;
      assert bytes[|head|..] == Encode(s[1..]);
      EncodeValid(s[1..]);
    }
  }

  /// A string has at most as many characters as bytes.
  lemma {:induction false} EncodeLength(s: string)
    ensures |s| <= |Encode(s)| <= 4 * |s|
  {
    if s != [] {
      EncodeLength(s[1..]);
    }
  }

  /// Only U+0000 encodes to a 0x00 byte: every byte of a longer sequence
  /// is 0x80 or above.
  lemma EncodeCharZero(c: char)
    ensures (exists j :: 0 <= j < |EncodeChar(c)| && EncodeChar(c)[j] == 0) <==> c == '\0'
  {
    EncodeCharWellFormed(c);
  }

  /// The bytes of a string hold 0x00 exactly when the string holds U+0000.
  lemma {:induction false} EncodeZero(s: string)
    ensures (exists j :: 0 <= j < |Encode(s)| && Encode(s)[j] == 0) <==> (exists i :: 0 <= i < |s| && s[i] == '\0')
  {
    if s != [] {
      var head, tail := EncodeChar(s[0]), Encode(s[1..]);
      EncodeCharZero(s[0]);
      EncodeZero(s[1..]);
      var bytes := Encode(s);
      assert bytes == head + tail;
      if j :| 0 <= j < |bytes| && bytes[j] == 0 {
        if j < |head| {
          assert head[j] == 0;
        } else {
          assert tail[j - |head|] == 0;
          var i :| 0 <= i < |s[1..]| && s[1..][i] == '\0';
          assert s[i + 1] == '\0';
        }
      }
      if i :| 0 <= i < |s| && s[i] == '\0' {
        if i == 0 {
          var j :| 0 <= j < |head| && head[j] == 0;
          assert bytes[j] == 0;
        } else {
          assert s[1..][i - 1] == '\0';
          var j :| 0 <= j < |tail| && tail[j] == 0;
          assert bytes[|head| + j] == 0;
        }
      }
    }
  }

  predicate IsAscii(s: string)
  {
    forall i :: 0 <= i < |s| ==> s[i] as int < 0x80
  }

  /// The bytes of an ASCII string, one per character (a Rust `b"..."` literal).
  function Ascii(s: string): (b: seq<u8>)
    requires IsAscii(s)
    ensures |b| == |s|
  {
    seq(|s|, i requires 0 <= i < |s| => s[i] as int as u8)
  }

  /// ASCII text is its own encoding, one byte per character.
  lemma {:induction false} EncodeAscii(s: string)
    requires IsAscii(s)
    ensures Encode(s) == Ascii(s)
  {
    if s != [] {
      EncodeAscii(s[1..]);
      assert Ascii(s) == [s[0] as int as u8] + Ascii(s[1..]);
    }
  }

  /// The bytes of two ASCII strings one after the other.
  lemma AsciiAppend(s: string, t: string)
    requires IsAscii(s) && IsAscii(t)
    ensures IsAscii(s + t) && Ascii(s + t) == Ascii(s) + Ascii(t)
  {
    assert forall i :: 0 <= i < |s + t| ==> (s + t)[i] == if i < |s| then s[i] else t[i - |s|];
  }
}
