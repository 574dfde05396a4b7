/** Little-endian words in buffers, and the rounding of lengths to cipher blocks. */
module Words {
  import opened Bytes
  import opened Bits

  // ---------- the encoding itself ----------

  /** The n low bytes of v, least significant first. */
  function ToBytes(v: nat, n: nat): (bs: seq<byte>)
    ensures |bs| == n
  {
    if n == 0 then [] else [v % 256] + ToBytes(v / 256, n - 1)
  }

  function FromBytes(bs: seq<byte>): nat {
    if bs == [] then 0 else bs[0] + 256 * FromBytes(bs[1..])
  }

  lemma DivDiv(a: nat, b: nat, c: nat)
    requires b > 0 && c > 0
    ensures b * c > 0 && a / (b * c) == (a / b) / c
  {
    MulAtLeast(c, b);
    var q, s, r := (a / b) / c, (a / b) % c, a % b;
    assert s <= c - 1;
    assert b * s + r < b * c by {
      MulDistributes(c, s, b);
      MulAtLeast(c - s, b);
    }
    assert a == b * (c * q + s) + r;
    assert a == q * (b * c) + (b * s + r) by {
      assert b * (c * q + s) == b * (c * q) + b * s;
      assert b * (c * q) == q * (b * c);
    }
    DivModUnique(a, b * c, q, b * s + r);
  }

  lemma EightBits()
    ensures Pow2(8) == 256
  {
  }

  lemma ByteShift(n: nat)
    ensures Pow2((n + 1) * 8) == 256 * Pow2(n * 8)
  {
    EightBits();
    Pow2Sum(8, n * 8);
  }

  /** Reading back what was written loses nothing, for every word that fits. */
  lemma {:induction false} WordRoundTrip(v: nat, n: nat)
    requires v < Pow2(n * 8)
    ensures FromBytes(ToBytes(v, n)) == v
  {
    if n != 0 {
      ByteShift(n - 1);
      assert v / 256 < Pow2((n - 1) * 8);
      WordRoundTrip(v / 256, n - 1);
      assert ToBytes(v, n)[1..] == ToBytes(v / 256, n - 1);
    }
  }

  lemma LowByte(b: int, rest: int, limit: int)
    requires 0 <= b < 256 && 0 <= rest < limit
    ensures (b + 256 * rest) % 256 == b && (b + 256 * rest) / 256 == rest
    ensures b + 256 * rest < 256 * limit
  {
  }

  /** Writing back what was read loses nothing, and what is read fits its width. */
  lemma {:induction false} BytesRoundTrip(bs: seq<byte>)
    ensures ToBytes(FromBytes(bs), |bs|) == bs
    ensures FromBytes(bs) < Pow2(|bs| * 8)
  {
    if bs != [] {
      var rest := FromBytes(bs[1..]);
      BytesRoundTrip(bs[1..]);
      ByteShift(|bs| - 1);
      LowByte(bs[0], rest, Pow2((|bs| - 1) * 8));
    }
  }

  lemma {:induction false} BytesAppend(bs: seq<byte>, b: byte)
    ensures FromBytes(bs + [b]) == FromBytes(bs) + Shl(b, |bs| * 8)
  {
    if bs != [] {
      BytesAppend(bs[1..], b);
      ByteShift(|bs| - 1);
      assert (bs + [b])[1..] == bs[1..] + [b];
      assert Shl(b, |bs| * 8) == 256 * Shl(b, (|bs| - 1) * 8);
    } else {
      assert (bs + [b])[1..] == [];
    }
  }

  /** Byte i of a word is the word shifted right by i bytes and masked. */
  lemma {:induction false} ByteAt(v: nat, n: nat, i: nat)
    requires i < n
    ensures ToBytes(v, n)[i] == And(Shr(v, i * 8), 0xff)
  {
    EightBits();
    AndMask(Shr(v, i * 8), 8);
    if i != 0 {
      ByteAt(v / 256, n - 1, i - 1);
      AndMask(Shr(v / 256, (i - 1) * 8), 8);
      ByteShift(i - 1);
      DivDiv(v, 256, Pow2((i - 1) * 8));
    }
  }

  lemma WidthLimits()
    ensures Pow2(4 * 8) == U32 && Pow2(8 * 8) == U64
  {
    ByteShift(0); ByteShift(1); ByteShift(2); ByteShift(3);
    Pow2Sum(32, 32);
  }

  // ---------- the buffer operations ----------

  /** The unrolled stores of `put_u32`. */
  method PutU32(target: array<byte>, at: nat, value: nat)
    requires value < U32
    requires at + 4 <= target.Length
    modifies target
    ensures target[..] == Blit(old(target[..]), at, ToBytes(value, 4))
  {
    ghost var word := ToBytes(value, 4);
    ByteAt(value, 4, 0);
    ByteAt(value, 4, 1);
    ByteAt(value, 4, 2);
    ByteAt(value, 4, 3);
    assert And(Shr(value, 0), 0xff) == word[0] && And(Shr(value, 8), 0xff) == word[1];
    assert And(Shr(value, 16), 0xff) == word[2] && And(Shr(value, 24), 0xff) == word[3];
    target[at] := And(Shr(value, 0), 0xff);
    target[at + 1] := And(Shr(value, 8), 0xff);
    target[at + 2] := And(Shr(value, 16), 0xff);
    target[at + 3] := And(Shr(value, 24), 0xff);
  }

  /** The or-ed shifts of `get_u32`. */
  method GetU32(source: seq<byte>) returns (value: nat)
    requires |source| == 4
    ensures value == FromBytes(source) && value < U32
  {
    value := Or(Or(Or(source[0], Shl(source[1], 8)), Shl(source[2], 16)), Shl(source[3], 24));
    assert FromBytes(source[..1]) == source[0] by { assert source[..1] == [source[0]]; }
    OrPrefix(source, 1);
    OrPrefix(source, 2);
    OrPrefix(source, 3);
    assert source[..4] == source;
    WidthLimits();
    BytesRoundTrip(source);
  }

  /** Or-ing in the next byte extends the decoded prefix by one byte. */
  lemma OrPrefix(source: seq<byte>, i: nat)
    requires i < |source|
    ensures Or(FromBytes(source[..i]), Shl(source[i], i * 8)) == FromBytes(source[..i + 1])
  {
    BytesRoundTrip(source[..i]);
    OrDisjoint(FromBytes(source[..i]), source[i], i * 8);
    BytesAppend(source[..i], source[i]);
    assert source[..i + 1] == source[..i] + [source[i]];
  }

  method PutU64(target: array<byte>, at: nat, value: nat)
    requires value < U64
    requires at + 8 <= target.Length
    modifies target
    ensures target[..] == Blit(old(target[..]), at, ToBytes(value, 8))
  {
    ghost var word := ToBytes(value, 8);
    for index := 0 to 8
      invariant target[..] == Blit(old(target[..]), at, word[..index])
    {
      ByteAt(value, 8, index);
      target[at + index] := And(Shr(value, index * 8), 0xff);
    }
    assert word[..8] == word;
  }

  method GetU64(source: seq<byte>) returns (value: nat)
    requires |source| == 8
    ensures value == FromBytes(source) && value < U64
  {
    value := 0;
    for index := 0 to 8
      invariant value == FromBytes(source[..index])
    {
      OrPrefix(source, index);
      value := Or(value, Shl(source[index], index * 8));
    }
    assert source[..8] == source;
    WidthLimits();
    BytesRoundTrip(source);
  }

  // ---------- rounding to cipher blocks ----------

  /** Rounding up with a 32-bit mask on a 64-bit sum. */
  function Align16(v: nat): nat {
    And(Add64(v, 15), 0xFFFF_FFF0)
  }

  lemma Align16Value(v: nat)
    ensures Align16(v) == Add64(v, 15) / 16 % 0x1000_0000 * 16
  {
    var x := Add64(v, 15);
    assert Pow2(4) == 16;
    assert Pow2(28) == 0x1000_0000 by {
      Pow2Sum(14, 14);
    }
    assert Shl(0xFFF_FFFF, 4) == 0xFFFF_FFF0;
    AndShifted(x, 0xFFF_FFFF, 4);
    AndMask(x / 16, 28);
  }

  /** The least multiple of 16 not below v. */
  function RoundUp16(v: nat): (r: nat)
    ensures r % 16 == 0 && v <= r < v + 16
  {
    (v + 15) / 16 * 16
  }

  /** The same, cut to 32 bits. */
  function Rounded(v: nat): (r: nat)
    ensures r % 16 == 0 && r <= U32 - 16
    ensures v <= U32 - 16 ==> r == RoundUp16(v)
    ensures v <= r <==> v <= U32 - 16
  {
    RoundUp16(v) % U32
  }

  lemma RoundedSum(v: nat, a: nat)
    requires v < U64
    requires a == Add64(v, 15) / 16 % 0x1000_0000 * 16
    ensures a == if v + 15 < U64 then Rounded(v) else 0
  {
  }

  /** The masked sum rounds up and cuts to 32 bits; it is the least multiple of 16 not below v exactly
      for v up to 2^32 - 16. */
  lemma Align16Exact(v: nat)
    requires v < U64
    ensures Align16(v) == if v + 15 < U64 then Rounded(v) else 0
    ensures Align16(v) == RoundUp16(v) <==> v <= U32 - 16
  {
    Align16Value(v);
    RoundedSum(v, Align16(v));
  }

  method PadLength(v: nat) returns (r: nat)
    requires v + 15 < U64
    ensures r == Rounded(v)
  {
    Align16Exact(v);
    r := Align16(v);
  }

  /** The length `get` computes in 32 bits for a record. */
  function EntryLength32(keySize: nat, valueLength: nat): nat {
    (1 + keySize + 4 + valueLength) % U32
  }

  /** `set` (64-bit) and `get` (32-bit) pad a record alike, whatever its length; the padded length holds
      the record exactly up to 2^32 - 16 bytes, and then the prefix `get` decrypts first never reaches
      past the record. */
  lemma WidthsAgree(keySize: nat, valueLength: nat)
    requires keySize <= 255 && valueLength < U32
    ensures var n := 1 + keySize + 4 + valueLength;
            && Align16(EntryLength32(keySize, valueLength)) == Align16(n)
            && (n <= Align16(n) <==> n <= U32 - 16)
            && (n <= U32 - 16 ==> Align16(1 + keySize + 4) <= Align16(n))
  {
    var n := 1 + keySize + 4 + valueLength;
    var e := EntryLength32(keySize, valueLength);
    Align16Exact(n);
    Align16Exact(e);
    Align16Exact(1 + keySize + 4);
    RoundingWraps(n);
    if n <= U32 - 16 {
      RoundingMonotone(1 + keySize + 4, n);
    }
  }

  lemma RoundingWraps(n: nat)
    requires n < 2 * U32
    ensures Rounded(n % U32) == Rounded(n)
  {
  }

  lemma RoundingMonotone(m: nat, n: nat)
    requires m <= n <= Rounded(n)
    ensures Rounded(m) <= Rounded(n)
  {
  }
}
