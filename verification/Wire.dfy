/**
 Machine integers and the base-128 varints that every generated codec in
 security/proto is built from.  Machine words are modelled as integers with their
 width written out; bitwise OR is a function on bit patterns, so that the decoding
 loop can do what the source does (`x |= (b & 0x7F) << shift`).
 */
module Wire {

  type byte = x: int | 0 <= x < 256

  const TWO_TO_63 := 0x8000_0000_0000_0000
  const TWO_TO_64 := 0x1_0000_0000_0000_0000
  const MAX_INT64 := 0x7fff_ffff_ffff_ffff
  const TWO_TO_32 := 0x1_0000_0000

  type uint64 = x: int | 0 <= x < TWO_TO_64
  type int64 = x: int | -TWO_TO_63 <= x < TWO_TO_63
  type uint32 = x: int | 0 <= x < TWO_TO_32
  type int32 = x: int | -0x8000_0000 <= x < 0x8000_0000

  /** The errors of the generated decoders. */
  datatype Error =
    | IntOverflow
    | UnexpectedEOF
    | InvalidLength
    | EndGroup
    | IllegalTag(fieldNum: int, wire: int)
    | WrongWireType(wireType: int, fieldNum: int)
    | IllegalWireType(wireType: int)
    | NestedError

  datatype Option<+T> = None | Some(value: T)

  // ---------------------------------------------------------------- integers

  /** Go's int64(x) and int(x) of a 64-bit pattern. */
  function ToInt64(x: uint64): int64 {
    if x >= TWO_TO_63 then x - TWO_TO_64 else x
  }

  /** Go's uint64(x) of a signed integer: sign extension. */
  function ToUint64(x: int64): uint64 {
    if x < 0 then x + TWO_TO_64 else x
  }

  /** Go's int32(x) of a 32-bit pattern. */
  function ToInt32(x: uint32): int32 {
    if x >= 0x8000_0000 then x - TWO_TO_32 else x
  }

  /** Wrapping addition of two Go ints. */
  function Add64(x: int64, y: int64): int64 {
    var sum := x + y;
    if sum >= TWO_TO_63 then sum - TWO_TO_64
    else if sum < -TWO_TO_63 then sum + TWO_TO_64
    else sum
  }

  /** A sign-extended value is recovered from its bit pattern at either width. */
  lemma SignExtensionRoundTrip(x: int64)
    ensures ToInt64(ToUint64(x)) == x
    ensures -0x8000_0000 <= x < 0x8000_0000 ==> ToInt32(ToUint64(x) % TWO_TO_32) == x
  {
    if -0x8000_0000 <= x < 0 {
      assert ToUint64(x) == (x + TWO_TO_32) + (TWO_TO_32 - 1) * TWO_TO_32;
    }
  }

  // -------------------------------------------------------------- bit patterns

  function Pow2(n: nat): (p: nat)
    ensures p > 0
  {
    if n == 0 then 1 else 2 * Pow2(n - 1)
  }

  /** Bitwise OR. */
  function BitOr(a: nat, b: nat): nat {
    if a == 0 && b == 0 then 0
    else 2 * BitOr(a / 2, b / 2) + (if a % 2 == 1 || b % 2 == 1 then 1 else 0)
  }

  /** math/bits.Len64: the number of bits needed to write x. */
  function Len64(x: nat): nat {
    if x == 0 then 0 else 1 + Len64(x / 2)
  }

  /** The low 32 or 64 bits of x. */
  function Truncate(x: nat, bits: nat): nat
    requires bits == 32 || bits == 64
  {
    if bits == 32 then x % TWO_TO_32 else x % TWO_TO_64
  }

  /** `x << shift` in a machine word of 32 or 64 bits. */
  function Shl(x: nat, shift: nat, bits: nat): nat
    requires bits == 32 || bits == 64
  {
    Truncate(x * Pow2(shift), bits)
  }

  lemma {:induction false} Pow2Adds(m: nat, n: nat)
    ensures Pow2(m + n) == Pow2(m) * Pow2(n)
  {
    if m == 0 {
    } else {
      Pow2Adds(m - 1, n);
      assert 2 * (Pow2(m - 1) * Pow2(n)) == (2 * Pow2(m - 1)) * Pow2(n);
    }
  }

  lemma {:induction false} BitOrZero(b: nat)
    ensures BitOr(0, b) == b && BitOr(b, 0) == b
  {
    if b == 0 {
    } else {
      BitOrZero(b / 2);
    }
  }

  /** OR-ing in bits above everything already set is addition. */
  lemma {:induction false} BitOrDisjoint(a: nat, b: nat, k: nat)
    requires a < Pow2(k)
    ensures BitOr(a, b * Pow2(k)) == a + b * Pow2(k)
  {
    if k == 0 {
      BitOrZero(b);
    } else {
      var half := b * Pow2(k - 1);
      assert b * Pow2(k) == 2 * half;
      BitOrDisjoint(a / 2, b, k - 1);
    }
  }

  lemma SplitProduct(group: nat, p: nat, q: nat)
    requires q > 0
    ensures group * p == (group % q) * p + (group / q) * (q * p)
    ensures (group % q) * p + p <= q * p
  {
    var high, lost := group % q, group / q;
    assert group * p == (high + lost * q) * p == high * p + lost * q * p;
    assert lost * q * p == lost * (q * p);
    assert (high + 1) * p <= q * p;
  }

  lemma TruncateMultiple(x: nat, lost: nat, bits: nat)
    requires bits == 32 || bits == 64
    ensures bits == 32 ==> Truncate(x + lost * TWO_TO_32, bits) == Truncate(x, bits)
    ensures bits == 64 ==> Truncate(x + lost * TWO_TO_64, bits) == Truncate(x, bits)
  {
  }

  function Modulus(bits: nat): nat {
    if bits == 32 then TWO_TO_32 else TWO_TO_64
  }

  lemma ModulusIsPower(bits: nat)
    requires bits == 32 || bits == 64
    ensures Modulus(bits) == Pow2(bits)
  {
    Pow2Values();
  }

  /** A shift inside the word keeps the part of the group below the width. */
  lemma ShiftInside(group: nat, shift: nat, bits: nat) returns (high: nat, lost: nat)
    requires shift < bits && (bits == 32 || bits == 64)
    ensures group * Pow2(shift) == high * Pow2(shift) + lost * Modulus(bits)
    ensures high * Pow2(shift) + Pow2(shift) <= Modulus(bits)
  {
    var q := Pow2(bits - shift);
    assert q * Pow2(shift) == Modulus(bits) by {
      Pow2Adds(bits - shift, shift);
      ModulusIsPower(bits);
    }
    SplitProduct(group, Pow2(shift), q);
    high, lost := group % q, group / q;
  }

  /** A shift past the word leaves nothing. */
  lemma ShiftOutside(group: nat, shift: nat, bits: nat) returns (lost: nat)
    requires shift >= bits && (bits == 32 || bits == 64)
    ensures group * Pow2(shift) == lost * Modulus(bits)
  {
    var q := Pow2(shift - bits);
    assert Pow2(shift) == q * Modulus(bits) by {
      Pow2Adds(shift - bits, bits);
      ModulusIsPower(bits);
    }
    lost := group * q;
    Associate(group, q, Modulus(bits));
  }

  lemma Associate(x: int, y: int, z: int)
    ensures x * (y * z) == (x * y) * z
  {
  }

  /** One round of the decoding loop: OR-ing a shifted group into the accumulator
      adds it, modulo the width of the accumulator. */
  lemma AccumulateGroup(prefix: nat, group: nat, shift: nat, bits: nat)
    requires bits == 32 || bits == 64
    requires prefix < Pow2(shift)
    ensures BitOr(Truncate(prefix, bits), Shl(group, shift, bits)) == Truncate(prefix + group * Pow2(shift), bits)
  {
    if shift < bits {
      var high, lost := ShiftInside(group, shift, bits);
      OrLowPart(prefix, high, lost, shift, bits, group * Pow2(shift));
    } else {
      var lost := ShiftOutside(group, shift, bits);
      OrNothing(prefix, lost, bits, group * Pow2(shift));
    }
  }

  lemma OrLowPart(prefix: nat, high: nat, lost: nat, shift: nat, bits: nat, shifted: nat)
    requires bits == 32 || bits == 64
    requires prefix < Pow2(shift) && high * Pow2(shift) + Pow2(shift) <= Modulus(bits)
    requires shifted == high * Pow2(shift) + lost * Modulus(bits)
    ensures BitOr(Truncate(prefix, bits), Truncate(shifted, bits)) == Truncate(prefix + shifted, bits)
  {
    var low := high * Pow2(shift);
    TruncateMultiple(low, lost, bits);
    TruncateMultiple(prefix + low, lost, bits);
    TruncateSmall(prefix + low, prefix, low, bits);
    BitOrDisjoint(prefix, high, shift);
  }

  lemma OrNothing(prefix: nat, lost: nat, bits: nat, shifted: nat)
    requires bits == 32 || bits == 64
    requires shifted == lost * Modulus(bits)
    ensures BitOr(Truncate(prefix, bits), Truncate(shifted, bits)) == Truncate(prefix + shifted, bits)
  {
    TruncateMultiple(0, lost, bits);
    TruncateMultiple(prefix, lost, bits);
    BitOrZero(Truncate(prefix, bits));
  }

  lemma TruncateSmall(sum: nat, x: nat, y: nat, bits: nat)
    requires bits == 32 || bits == 64
    requires sum == x + y < Modulus(bits)
    ensures Truncate(sum, bits) == sum && Truncate(x, bits) == x && Truncate(y, bits) == y
  {
  }

  lemma Pow2Values()
    ensures Pow2(7) == 128 && Pow2(32) == TWO_TO_32 && Pow2(64) == TWO_TO_64
  {
    Pow2Of16();
    Pow2Adds(16, 16);
    Pow2Adds(32, 32);
  }

  lemma Pow2Of16()
    ensures Pow2(7) == 128 && Pow2(16) == 0x1_0000
  {
    assert Pow2(4) == 16;
    Pow2Adds(4, 3);
    Pow2Adds(4, 4);
    Pow2Adds(8, 8);
  }

  // ------------------------------------------------------------------ varints

  /** The base-128 encoding of v, low group first (Protocol Buffers Encoding,
      "Base 128 Varints"). */
  function EncodeVarint(v: nat): (s: seq<byte>)
    ensures |s| > 0
  {
    if v < 128 then [v] else [v % 128 + 128] + EncodeVarint(v / 128)
  }

  /** The number spelled by the low seven bits of each byte, low group first. */
  function Groups(s: seq<byte>): nat {
    if s == [] then 0 else s[0] % 128 + 128 * Groups(s[1..])
  }

  /** At most `most` bytes, of which exactly the last has its top bit clear. */
  predicate IsVarint(s: seq<byte>, most: nat) {
    && 0 < |s| <= most
    && s[|s| - 1] < 128
    && forall k :: 0 <= k < |s| - 1 ==> s[k] >= 128
  }

  /** The ten byte limit of the decoders: a shift of 64 or more is refused. */
  const MAX_VARINT := 10

  /** What a decoding loop yields: the (untruncated) value and the bytes used, or the
      error and what had been accumulated by then. */
  datatype VarintRead =
    | Got(value: nat, n: nat)
    | Failed(error: Error, partial: nat)

  function ReadVarintFrom(s: seq<byte>, done: nat): (r: VarintRead)
    requires done <= MAX_VARINT
    ensures r.Got? ==> 0 < r.n <= |s|
    decreases MAX_VARINT - done
  {
    if done == MAX_VARINT then Failed(IntOverflow, 0)
    else if s == [] then Failed(UnexpectedEOF, 0)
    else if s[0] < 128 then Got(s[0], 1)
    else
      match ReadVarintFrom(s[1..], done + 1)
      case Got(v, n) => Got(s[0] % 128 + 128 * v, n + 1)
      case Failed(e, p) => Failed(e, s[0] % 128 + 128 * p)
  }

  function ReadVarint(s: seq<byte>): (r: VarintRead)
    ensures r.Got? ==> 0 < r.n <= |s|
  {
    ReadVarintFrom(s, 0)
  }

  lemma {:induction false} ReadVarintComplete(s: seq<byte>, rest: seq<byte>, done: nat)
    requires done <= MAX_VARINT
    requires IsVarint(s, MAX_VARINT - done)
    ensures ReadVarintFrom(s + rest, done) == Got(Groups(s), |s|)
  {
    assert (s + rest)[0] == s[0];
    assert (s + rest)[1..] == s[1..] + rest;
    if |s| == 1 {
      assert Groups(s[1..]) == 0;
    } else {
      assert forall k :: 0 <= k < |s[1..]| ==> s[1..][k] == s[k + 1];
      ReadVarintComplete(s[1..], rest, done + 1);
    }
  }

  lemma {:induction false} ReadVarintSound(s: seq<byte>, done: nat)
    requires done <= MAX_VARINT
    ensures var r := ReadVarintFrom(s, done);
            r.Got? ==> IsVarint(s[..r.n], MAX_VARINT - done) && r.value == Groups(s[..r.n])
    decreases MAX_VARINT - done
  {
    var r := ReadVarintFrom(s, done);
    if r.Got? && s[0] < 128 {
      assert Groups(s[..1][1..]) == 0;
    } else if r.Got? {
      ReadVarintSound(s[1..], done + 1);
      hide IsVarint, Groups;
      var tail := s[1..][..r.n - 1];
      assert s[..r.n] == [s[0]] + tail;
      PrependGroup(s[0], tail, MAX_VARINT - (done + 1));
    }
  }

  /** The decoder accepts n bytes with value v exactly when they are a varint that
      spells v; what follows them does not matter. */
  lemma ReadVarintExact(s: seq<byte>, v: nat, n: nat)
    ensures ReadVarint(s) == Got(v, n)
       <==> n <= |s| && IsVarint(s[..n], MAX_VARINT) && v == Groups(s[..n])
  {
    ReadVarintSound(s, 0);
    if n <= |s| && IsVarint(s[..n], MAX_VARINT) {
      ReadVarintComplete(s[..n], s[n..], 0);
      assert s == s[..n] + s[n..];
    }
  }

  /** The two ways to fail: ten continuation bytes, or the input ends before a final byte. */
  lemma {:induction false} ReadVarintFailsExactly(s: seq<byte>, done: nat)
    requires done <= MAX_VARINT
    ensures var r := ReadVarintFrom(s, done);
            && (r.Failed? ==> r.error in {IntOverflow, UnexpectedEOF})
            && (r.Failed? && r.error == IntOverflow <==>
                 |s| >= MAX_VARINT - done && forall k :: 0 <= k < MAX_VARINT - done ==> s[k] >= 128)
            && (r.Failed? && r.error == UnexpectedEOF <==>
                 |s| < MAX_VARINT - done && forall k :: 0 <= k < |s| ==> s[k] >= 128)
    decreases MAX_VARINT - done
  {
    if done < MAX_VARINT && s != [] && s[0] >= 128 {
      ReadVarintFailsExactly(s[1..], done + 1);
      assert forall k :: 0 < k < |s| ==> s[k] == s[1..][k - 1];
      assert forall k :: 0 <= k < |s| - 1 ==> s[1..][k] == s[k + 1];
    }
  }

  lemma ReadVarintIgnoresRest(s: seq<byte>, rest: seq<byte>)
    requires ReadVarint(s).Got?
    ensures ReadVarint(s + rest) == ReadVarint(s)
  {
    hide ReadVarintFrom, IsVarint, Groups;
    var Got(v, n) := ReadVarint(s);
    ReadVarintSound(s, 0);
    ReadVarintComplete(s[..n], s[n..] + rest, 0);
    assert s + rest == s[..n] + (s[n..] + rest);
  }

  lemma DropGroup(v: nat, most: nat)
    requires v < Pow2(7 * most) && v >= 128
    ensures most > 1 && v / 128 < Pow2(7 * (most - 1))
  {
    Pow2Values();
    if most > 1 {
      Pow2Adds(7, 7 * (most - 1));
    }
  }

  /** The encoder writes varints, of one to ten bytes for 64-bit values. */
  lemma {:induction false} EncodeVarintIsVarint(v: nat, most: nat)
    requires most > 0 && v < Pow2(7 * most)
    ensures IsVarint(EncodeVarint(v), most) && Groups(EncodeVarint(v)) == v
  {
    hide IsVarint, Groups, Pow2;
    if v < 128 {
      SmallIsVarint(v, most);
    } else {
      DropGroup(v, most);
      EncodeVarintIsVarint(v / 128, most - 1);
      PrependGroup(v % 128 + 128, EncodeVarint(v / 128), most - 1);
      LowGroup(v);
    }
  }

  lemma SmallIsVarint(v: nat, most: nat)
    requires v < 128 && most > 0
    ensures IsVarint([v], most) && Groups([v]) == v
  {
    assert [v][1..] == [];
  }

  lemma LowGroup(v: nat)
    ensures (v % 128 + 128) % 128 + 128 * (v / 128) == v
  {
  }

  lemma PrependGroup(b: byte, tail: seq<byte>, most: nat)
    requires b >= 128 && IsVarint(tail, most)
    ensures IsVarint([b] + tail, most + 1) && Groups([b] + tail) == b % 128 + 128 * Groups(tail)
  {
    var s := [b] + tail;
    assert s[1..] == tail;
    assert s[|s| - 1] == tail[|tail| - 1];
    assert forall k :: 0 < k < |tail| ==> s[k] == tail[k - 1];
  }

  /** Decoding an encoded 64-bit value gives it back, whatever follows it. */
  lemma VarintRoundTrip(v: uint64, rest: seq<byte>)
    ensures |EncodeVarint(v)| <= MAX_VARINT
    ensures ReadVarint(EncodeVarint(v) + rest) == Got(v, |EncodeVarint(v)|)
  {
    Pow2Adds(64, 6);
    Pow2Values();
    assert Pow2(6) == 64;
    EncodeVarintIsVarint(v, MAX_VARINT);
    ReadVarintComplete(EncodeVarint(v), rest, 0);
  }

  /** sovCaService and sovIstioca: the predicted size of an encoded varint. */
  function Sov(x: uint64): nat {
    (Len64(BitOr(x, 1)) + 6) / 7
  }

  lemma {:induction false} Len64Groups(x: nat)
    requires x > 0
    ensures (Len64(x) + 6) / 7 == |EncodeVarint(x)|
  {
    if x < 128 {
      Len64Bound(x, 7);
    } else {
      assert Len64(x) == 1 + Len64(x / 2) == 2 + Len64(x / 4) == 3 + Len64(x / 8) == 4 + Len64(x / 16)
          == 5 + Len64(x / 32) == 6 + Len64(x / 64) == 7 + Len64(x / 128) by {
        assert x / 2 / 2 == x / 4 && x / 4 / 2 == x / 8 && x / 8 / 2 == x / 16;
        assert x / 16 / 2 == x / 32 && x / 32 / 2 == x / 64 && x / 64 / 2 == x / 128;
      }
      Len64Groups(x / 128);
    }
  }

  lemma {:induction false} Len64Bound(x: nat, n: nat)
    requires x < Pow2(n)
    ensures Len64(x) <= n
  {
    if x > 0 {
      Len64Bound(x / 2, n - 1);
    }
  }

  /** The prediction is exact for every 64-bit value: the first half of
      "Size() is the number of bytes written". */
  lemma SovIsEncodedLength(x: uint64)
    ensures Sov(x) == |EncodeVarint(x)|
  {
    BitOrZero(x / 2);
    var y := BitOr(x, 1);
    assert y == 2 * (x / 2) + 1;
    Len64Groups(y);
    if x % 2 == 0 {
      EvenSameLength(x);
    }
  }

  lemma EvenSameLength(x: nat)
    requires x % 2 == 0
    ensures |EncodeVarint(x + 1)| == |EncodeVarint(x)|
  {
    assert (x + 1) / 128 == x / 128;
  }
}
