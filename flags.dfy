/// The `Flags` combinator: eight booleans packed into one byte
/// (`src/combinators/flags.rs`).
///
/// The two conversions the source defines use opposite bit orders:
/// `From<Flags> for u8` gives `flags[i]` the weight of bit 7 - i, while
/// `From<u8> for Flags` sets `flags[i]` from bit i. Going from a byte to flags
/// and back therefore reverses the byte's bits; `ByteToFlagsToByte` states it.
/// `FlagsOfMsbFirst` is the conversion from a byte that `ToByte` undoes.
module Flags {
  import opened Utf8

  /// `[bool; 8]`.
  type FlagArray = f: seq<bool> | |f| == 8
    witness [false, false, false, false, false, false, false, false]

  /// Bit `k` of `x`, counting from the least significant bit.
  predicate Bit(x: nat, k: nat)
  {
    if k == 0 then x % 2 == 1 else Bit(x / 2, k - 1)
  }

  /// Bit `k` of a byte.
  predicate ByteBit(b: u8, k: nat)
  {
    Bit(b as nat, k)
  }

  /// The number whose bit j is `bits[j]` (least significant first).
  function FromBits(bits: seq<bool>): (x: nat)
    ensures x < Power2(|bits|)
  {
    if bits == [] then 0 else (if bits[0] then 1 else 0) + 2 * FromBits(bits[1..])
  }

  function Power2(n: nat): (p: nat)
    ensures 0 < p
  {
    if n == 0 then 1 else 2 * Power2(n - 1)
  }

  function Reversed(f: seq<bool>): (r: seq<bool>)
    ensures |r| == |f|
    ensures forall i :: 0 <= i < |f| ==> r[i] == f[|f| - 1 - i]
  {
    seq(|f|, i requires 0 <= i < |f| => f[|f| - 1 - i])
  }

  /// `u8::from(flags)`: the flags are reversed and enumerated, flag j of the
  /// reversed array contributes `1 << j`, and the contributions are or-ed
  /// together. The contributions are distinct powers of two, so their sum is
  /// their bitwise or.
  function ToByte(f: FlagArray): u8
  {
    FromBits(Reversed(f)) as u8
  }

  /// What `Flags::from(byte)` produces: flag i is bit i of the byte.
  function FlagsOf(b: u8): (f: FlagArray)
  {
    seq(8, i requires 0 <= i < 8 => Bit(b as nat, i))
  }

  /// `Flags::from(value)`: fills a local `[false; 8]` from the highest index
  /// down, setting each entry to whether `value & (1 << i)` is non-zero.
  method FromByte(value: u8) returns (f: FlagArray)
    ensures f == FlagsOf(value)
    ensures forall i :: 0 <= i < 8 ==> f[i] == ByteBit(value, i)
  {
    var slice := new bool[8](_ => false);
    var i := 8;
    while i > 0
      invariant 0 <= i <= 8
      invariant forall j :: i <= j < 8 ==> slice[j] == Bit(value as nat, j)
    {
      i := i - 1;
      slice[i] := Bit(value as nat, i);
    }
    f := slice[..];
  }

  // ---- Properties -------------------------------------------------------

  /// Bit j of `FromBits(bits)` is `bits[j]`, and there are no bits above.
  lemma {:induction false} BitOfFromBits(bits: seq<bool>, j: nat)
    ensures Bit(FromBits(bits), j) == (j < |bits| && bits[j])
  {
    if bits == [] {
      ZeroHasNoBits(j);
    } else if j > 0 {
      BitOfFromBits(bits[1..], j - 1);
    }
  }

  lemma {:induction false} ZeroHasNoBits(j: nat)
    ensures !Bit(0, j)
  {
    if j > 0 {
      ZeroHasNoBits(j - 1);
    }
  }

  /// Flag i of the packed byte has the weight of bit 7 - i: index 0 is the
  /// most significant bit (`src/combinators/flags.rs:78-89`).
  lemma ToByteBits(f: FlagArray)
    ensures forall i :: 0 <= i < 8 ==> ByteBit(ToByte(f), 7 - i) == f[i]
    ensures forall k :: 8 <= k ==> !ByteBit(ToByte(f), k)
  {
    forall i | 0 <= i < 8
      ensures ByteBit(ToByte(f), 7 - i) == f[i]
    {
      BitOfFromBits(Reversed(f), 7 - i);
    }
    forall k | 8 <= k
      ensures !ByteBit(ToByte(f), k)
    {
      BitOfFromBits(Reversed(f), k);
    }
  }

  /// Numbers with the same bits are equal.
  lemma {:induction false} SameBitsSameNumber(x: nat, y: nat, n: nat)
    requires x < Power2(n) && y < Power2(n)
    requires forall k :: 0 <= k < n ==> Bit(x, k) == Bit(y, k)
    ensures x == y
  {
    if n > 0 {
      forall k | 0 <= k < n - 1
        ensures Bit(x / 2, k) == Bit(y / 2, k)
      {
        assert Bit(x, k + 1) == Bit(y, k + 1);
      }
      SameBitsSameNumber(x / 2, y / 2, n - 1);
      assert Bit(x, 0) == Bit(y, 0);
    }
  }

  /// Different flag arrays pack into different bytes.
  lemma ToByteInjective(f: FlagArray, g: FlagArray)
    requires ToByte(f) == ToByte(g)
    ensures f == g
  {
    ToByteBits(f);
    ToByteBits(g);
    forall i | 0 <= i < 8
      ensures f[i] == g[i]
    {
      assert ByteBit(ToByte(f), 7 - i) == ByteBit(ToByte(g), 7 - i);
    }
  }

  /// Byte to flags and back reverses the byte's bits: bit j of the result is
  /// bit 7 - j of the original (`src/combinators/flags.rs:67-89`).
  lemma ByteToFlagsToByte(b: u8)
    ensures forall j :: 0 <= j < 8 ==> ByteBit(ToByte(FlagsOf(b)), j) == ByteBit(b, 7 - j)
  {
    ToByteBits(FlagsOf(b));
    forall j | 0 <= j < 8
      ensures ByteBit(ToByte(FlagsOf(b)), j) == ByteBit(b, 7 - j)
    {
      assert ByteBit(ToByte(FlagsOf(b)), 7 - (7 - j)) == FlagsOf(b)[7 - j];
    }
  }

  /// So the conversions are not inverse to each other: 0x01 comes back as 0x80.
  lemma NotARoundTrip()
    ensures ToByte(FlagsOf(0x01)) == 0x80
  {
    var f := FlagsOf(0x01);
    forall j | 1 <= j < 8
      ensures f[j] == false
    {
      ZeroHasNoBits(j - 1);
      assert f[j] == Bit(0, j - 1);
    }
    assert f == [true, false, false, false, false, false, false, false];
    assert Reversed(f) == [false, false, false, false, false, false, false, true];
  }

  /// The conversion from a byte that `ToByte` undoes, in the bit order the
  /// documented examples fix: flag i is bit 7 - i, index 0 the most
  /// significant bit.
  function FlagsOfMsbFirst(b: u8): (f: FlagArray)
    ensures forall i :: 0 <= i < 8 ==> f[i] == ByteBit(b, 7 - i)
  {
    seq(8, i requires 0 <= i < 8 => Bit(b as nat, 7 - i))
  }

  /// With that order the two conversions are inverse to each other, both
  /// ways round.
  lemma MsbFirstRoundTrip(b: u8, f: FlagArray)
    ensures ToByte(FlagsOfMsbFirst(b)) == b
    ensures FlagsOfMsbFirst(ToByte(f)) == f
  {
    var g := FlagsOfMsbFirst(b);
    ToByteBits(g);
    var x: nat, y: nat := ToByte(g) as nat, b as nat;
    forall k | 0 <= k < 8
      ensures Bit(x, k) == Bit(y, k)
    {
      assert ByteBit(ToByte(g), 7 - (7 - k)) == g[7 - k];
    }
    assert Power2(8) == 256;
    SameBitsSameNumber(x, y, 8);
    ToByteBits(f);
  }

  /// The documented examples (`src/combinators/flags.rs:11-31`).
  lemma Examples()
    ensures ToByte([false, false, false, false, false, false, false, false]) == 0
    ensures ToByte([true, false, false, true, false, false, false, false]) == 0x90
  {
    assert Reversed([false, false, false, false, false, false, false, false])
      == [false, false, false, false, false, false, false, false];
    assert Reversed([true, false, false, true, false, false, false, false])
      == [false, false, false, false, true, false, false, true];
  }
}
