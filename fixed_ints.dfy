/// Fixed-width integers and their byte orders: what `to_le_bytes`,
/// `to_be_bytes` and `TryFrom<usize>` do for the ten integer types the `LE`
/// and `BE` combinators accept (`src/combinators/le.rs`, `src/combinators/be.rs`).
module FixedInts {
  import opened Utf8
  import opened Errors

  /// Rust's `i8`.
  newtype i8 = x: int | -128 <= x < 128

  /// The bit pattern of an `i8` read as a `u8` (`v as u8`).
  function ByteOf(v: i8): (b: u8)
    ensures b as int % 128 == v as int % 128
    ensures (b >= 128) == (v < 0)
  {
    if v < 0 then (v as int + 256) as u8 else v as u8
  }

  datatype IntKind =
    | UInt8 | UInt16 | UInt32 | UInt64 | UInt128
    | Int8 | Int16 | Int32 | Int64 | Int128

  /// The size of the type in bytes.
  function Width(k: IntKind): nat
  {
    match k
    case UInt8 | Int8 => 1
    case UInt16 | Int16 => 2
    case UInt32 | Int32 => 4
    case UInt64 | Int64 => 8
    case UInt128 | Int128 => 16
  }

  predicate IsSigned(k: IntKind)
  {
    k.Int8? || k.Int16? || k.Int32? || k.Int64? || k.Int128?
  }

  /// 256 to the power `w`: the number of bit patterns of `w` bytes.
  function Pow256(w: nat): (p: nat)
    ensures 0 < p
  {
    if w == 0 then 1 else 256 * Pow256(w - 1)
  }

  function Min(k: IntKind): int
  {
    if IsSigned(k) then -(Pow256(Width(k)) / 2) else 0
  }

  function Max(k: IntKind): int
  {
    if IsSigned(k) then Pow256(Width(k)) / 2 - 1 else Pow256(Width(k)) - 1
  }

  /// A number together with the Rust type it has.
  datatype FixedInt = FixedInt(kind: IntKind, value: int)

  /// A number that is in range for its type.
  type Fixed = n: FixedInt | Min(n.kind) <= n.value <= Max(n.kind)
    witness FixedInt(UInt8, 0)

  /// `NonZero<T>`: a number of its type other than zero.
  type NonZeroFixed = n: Fixed | n.value != 0
    witness FixedInt(UInt8, 1)

  /// The two's-complement bit pattern of a number, as an unsigned value.
  function Bits(n: Fixed): (u: nat)
    ensures u < Pow256(Width(n.kind))
    ensures n.value >= 0 ==> u == n.value
  {
    if n.value < 0 then n.value + Pow256(Width(n.kind)) else n.value
  }

  /// The `w` low bytes of `u`, least significant first.
  function LEBytes(w: nat, u: nat): (r: seq<u8>)
    ensures |r| == w
  {
    if w == 0 then [] else [(u % 256) as u8] + LEBytes(w - 1, u / 256)
  }

  /// The `w` low bytes of `u`, most significant first.
  function BEBytes(w: nat, u: nat): (r: seq<u8>)
    ensures |r| == w
  {
    if w == 0 then [] else BEBytes(w - 1, u / 256) + [(u % 256) as u8]
  }

  /// `to_le_bytes`: as many bytes as the type is wide, two's complement.
  function ToLE(n: Fixed): (b: seq<u8>)
    ensures |b| == Width(n.kind)
  {
    LEBytes(Width(n.kind), Bits(n))
  }

  /// `to_be_bytes`.
  function ToBE(n: Fixed): (b: seq<u8>)
    ensures |b| == Width(n.kind)
  {
    BEBytes(Width(n.kind), Bits(n))
  }

  /// The unsigned value of little-endian bytes: below 256^|b|.
  function FromLEBytes(b: seq<u8>): (u: nat)
    ensures u < Pow256(|b|)
  {
    if b == [] then 0 else b[0] as nat + 256 * FromLEBytes(b[1..])
  }

  function Reverse(b: seq<u8>): (r: seq<u8>)
    ensures |r| == |b|
  {
    if b == [] then [] else Reverse(b[1..]) + [b[0]]
  }

  /// `from_le_bytes` for a type: the bit pattern read back, with the sign bit
  /// of a signed type weighing negatively. Every pattern reads back as a
  /// number in the type's range.
  function FromLE(k: IntKind, b: seq<u8>): (r: FixedInt)
    requires |b| == Width(k)
    ensures r.kind == k && Min(k) <= r.value <= Max(k)
  {
    assert Pow256(Width(k)) == 256 * Pow256(Width(k) - 1);
    var u := FromLEBytes(b);
    FixedInt(k, if IsSigned(k) && u > Max(k) then u - Pow256(Width(k)) else u)
  }

  /// `from_be_bytes`.
  function FromBE(k: IntKind, b: seq<u8>): (r: FixedInt)
    requires |b| == Width(k)
    ensures r.kind == k && Min(k) <= r.value <= Max(k)
  {
    FromLE(k, Reverse(b))
  }

  /// `T::try_from(value: usize)`: succeeds exactly when the value fits `T`,
  /// and then yields that value unchanged.
  function TryFrom(k: IntKind, value: nat): (r: Result<Fixed>)
    ensures r.Ok? <==> value <= Max(k)
    ensures r.Ok? ==> r.value.kind == k && r.value.value == value
    ensures r.Err? ==> r.error == TryFromIntError
  {
    if value <= Max(k) then Ok(FixedInt(k, value)) else Err(TryFromIntError)
  }

  // ---- Properties -------------------------------------------------------

  /// Reading back the `w` low bytes gives `u` modulo 256^w.
  lemma {:induction false} FromLEBytesOfLE(w: nat, u: nat)
    ensures FromLEBytes(LEBytes(w, u)) == u % Pow256(w)
  {
    if w > 0 {
      var rest := LEBytes(w - 1, u / 256);
      assert LEBytes(w, u)[1..] == rest;
      FromLEBytesOfLE(w - 1, u / 256);
      ModOfPow(u, Pow256(w - 1));
    }
  }

  /// u mod 256p == u mod 256 + 256 * ((u / 256) mod p).
  lemma ModOfPow(u: nat, p: nat)
    requires 0 < p
    ensures u % (256 * p) == u % 256 + 256 * ((u / 256) % p)
  {
    var q := (u / 256) / p;
    var r := u % 256 + 256 * ((u / 256) % p);
    assert u == q * (256 * p) + r;
    assert 0 <= r < 256 * p;
    DivModUnique(u, 256 * p, q, r);
  }

  /// Big-endian bytes are the little-endian bytes reversed
  /// (`to_be_bytes` against `to_le_bytes`, `src/combinators/be.rs:85`).
  lemma {:induction false} BEIsReversedLE(w: nat, u: nat)
    ensures BEBytes(w, u) == Reverse(LEBytes(w, u))
  {
    if w > 0 {
      BEIsReversedLE(w - 1, u / 256);
      var le := LEBytes(w, u);
      assert le[1..] == LEBytes(w - 1, u / 256);
    }
  }

  lemma {:induction false} ReverseReverse(b: seq<u8>)
    ensures Reverse(Reverse(b)) == b
  {
    if b != [] {
      ReverseReverse(b[1..]);
      ReverseAppend(Reverse(b[1..]), [b[0]]);
      assert Reverse([b[0]]) == [b[0]];
      assert b == [b[0]] + b[1..];
    }
  }

  lemma {:induction false} ReverseAppend(a: seq<u8>, b: seq<u8>)
    ensures Reverse(a + b) == Reverse(b) + Reverse(a)
  {
    if a == [] {
      assert a + b == b;
    } else {
      assert (a + b)[1..] == a[1..] + b;
      ReverseAppend(a[1..], b);
    }
  }

  /// `from_le_bytes(to_le_bytes(n)) == n` for every type and value in range.
  lemma LERoundTrip(n: Fixed)
    ensures FromLE(n.kind, ToLE(n)) == n
  {
    var p := Pow256(Width(n.kind));
    var u := Bits(n);
    FromLEBytesOfLE(Width(n.kind), u);
    DivModUnique(u, p, 0, u);
    assert FromLEBytes(ToLE(n)) == u;
    if n.value < 0 {
      assert IsSigned(n.kind);
      assert u > Max(n.kind);
    } else {
      assert u == n.value;
    }
  }

  /// `from_be_bytes(to_be_bytes(n)) == n`.
  lemma BERoundTrip(n: Fixed)
    ensures FromBE(n.kind, ToBE(n)) == n
  {
    BEIsReversedLE(Width(n.kind), Bits(n));
    ReverseReverse(ToLE(n));
    LERoundTrip(n);
  }

  /// Two numbers of one type with the same little-endian bytes are equal,
  /// so `LE` encodings of different values differ.
  lemma LEInjective(m: Fixed, n: Fixed)
    requires m.kind == n.kind && ToLE(m) == ToLE(n)
    ensures m == n
  {
    LERoundTrip(m);
    LERoundTrip(n);
  }

  /// The ranges of the types, as the Rust constants `MIN` and `MAX`.
  lemma Ranges()
    ensures Max(UInt8) == 0xFF && Max(UInt16) == 0xFFFF && Max(UInt32) == 0xFFFF_FFFF
    ensures Max(Int8) == 0x7F && Min(Int8) == -0x80
    ensures Max(Int32) == 0x7FFF_FFFF && Min(Int32) == -0x8000_0000
    ensures Max(UInt64) == 0xFFFF_FFFF_FFFF_FFFF
  {
    assert Pow256(1) == 0x100;
    assert Pow256(2) == 0x1_0000;
    assert Pow256(4) == 0x1_0000_0000;
    assert Pow256(8) == 0x1_0000_0000_0000_0000;
  }

  /// `LE::new(1u16)` writes [1, 0], `BE::new(1u16)` writes [0, 1]
  /// (`src/combinators/le.rs:18-19`, `src/combinators/be.rs`), and `-1i32`
  /// is four 0xFF bytes in either order.
  lemma Examples()
    ensures ToLE(FixedInt(UInt16, 1)) == [1, 0]
    ensures ToBE(FixedInt(UInt16, 1)) == [0, 1]
    ensures ToLE(FixedInt(Int32, -1)) == [0xFF, 0xFF, 0xFF, 0xFF]
    ensures ToBE(FixedInt(Int32, -1)) == [0xFF, 0xFF, 0xFF, 0xFF]
  {
    Ranges();
    assert Pow256(4) == 0x1_0000_0000;
  }
}
