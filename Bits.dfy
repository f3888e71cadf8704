/**
 * The bit packing of `writeBits` and its reading back in the decoders.
 * A `java.util.BitSet` is seen only through what these routines use: bit
 * `i` lives in byte `i / 8` at position `i % 8` (least significant first),
 * `toByteArray` stops after the last byte holding a set bit, and `get`
 * answers false past the end of the bytes.
 */
module Bits {

  /** A byte as `toByteArray` and `valueOf` interpret it: its eight bits, unsigned. */
  type Byte = x: int | 0 <= x < 256

  /** A bit string is made of '0' and '1' only. */
  predicate IsBinary(s: string)
  {
    forall i :: 0 <= i < |s| ==> s[i] == '0' || s[i] == '1'
  }

  function Pow2(n: nat): (r: nat)
    ensures r >= 1
  {
    if n == 0 then 1 else 2 * Pow2(n - 1)
  }

  /** Bit `k` of `x`, counting from the least significant. */
  function TestBit(x: nat, k: nat): bool
  {
    if k == 0 then x % 2 == 1 else TestBit(x / 2, k - 1)
  }

  /** The byte whose bit `k` is `bits[k]`. */
  function PackByte(bits: seq<bool>): (r: nat)
    requires |bits| <= 8
    ensures r < Pow2(|bits|)
  {
    if bits == [] then 0 else (if bits[0] then 1 else 0) + 2 * PackByte(bits[1..])
  }

  /** The bytes of a bit sequence, eight bits per byte, the last one padded with zero bits. */
  function Pack(bits: seq<bool>): (r: seq<Byte>)
    ensures |r| == (|bits| + 7) / 8
    decreases |bits|
  {
    if bits == [] then []
    else
      var n := if |bits| < 8 then |bits| else 8;
      Pow2Monotone(n, 8);
      [PackByte(bits[..n]) as Byte] + Pack(bits[n..])
  }

  /** `toByteArray`'s trimming: trailing zero bytes are dropped. */
  function TrimZeros(bytes: seq<Byte>): (r: seq<Byte>)
    ensures r <= bytes
    ensures r == [] || r[|r| - 1] != 0
    ensures forall k :: |r| <= k < |bytes| ==> bytes[k] == 0
    decreases |bytes|
  {
    if bytes != [] && bytes[|bytes| - 1] == 0 then TrimZeros(bytes[..|bytes| - 1]) else bytes
  }

  /** `BitSet.toByteArray` of the set whose bit `i` is `bits[i]`. */
  function ToByteArray(bits: seq<bool>): seq<Byte>
  {
    TrimZeros(Pack(bits))
  }

  /** `BitSet.valueOf(bytes).get(i)`. */
  function BitSetGet(bytes: seq<Byte>, i: nat): bool
  {
    i / 8 < |bytes| && TestBit(bytes[i / 8], i % 8)
  }

  /** One block of the container: the exact bit count, then the bytes (whose count is written before them). */
  datatype Block = Block(bitLength: int, bytes: seq<Byte>)

  /** The bits `writeBits` records for `s`: bit `i` set when `s[i]` is '1'. */
  function BitsOf(s: string): (r: seq<bool>)
    ensures |r| == |s|
  {
    seq(|s|, i requires 0 <= i < |s| => s[i] == '1')
  }

  /** The block `writeBits` writes for the buffered code string `s`. */
  function Packed(s: string): Block
  {
    Block(|s|, ToByteArray(BitsOf(s)))
  }

  /** The bits a decoder reads from a block: `bitLength` of them, '1' where the bit set answers true. */
  function Unpacked(b: Block): (r: string)
    ensures |r| == if b.bitLength < 0 then 0 else b.bitLength
    ensures IsBinary(r)
  {
    var n := if b.bitLength < 0 then 0 else b.bitLength;
    seq(n, i requires 0 <= i < n => if BitSetGet(b.bytes, i) then '1' else '0')
  }

  /** The bits a decoder reads from a sequence of blocks, in order. */
  function UnpackedAll(blocks: seq<Block>): string
  {
    if blocks == [] then "" else UnpackedAll(blocks[..|blocks| - 1]) + Unpacked(blocks[|blocks| - 1])
  }

  /** The bit count of a sequence of blocks. */
  function BitCount(blocks: seq<Block>): int
  {
    if blocks == [] then 0 else BitCount(blocks[..|blocks| - 1]) + blocks[|blocks| - 1].bitLength
  }

  lemma {:induction false} Pow2Monotone(m: nat, n: nat)
    requires m <= n
    ensures Pow2(m) <= Pow2(n)
    decreases n
  {
    if m < n {
      Pow2Monotone(m, n - 1);
    }
  }

  lemma {:induction false} ZeroHasNoBits(k: nat)
    ensures !TestBit(0, k)
  {
    if k > 0 {
      ZeroHasNoBits(k - 1);
    }
  }

  /** Bit `k` of a packed byte is the `k`-th bit packed, and bits past the end are clear. */
  lemma {:induction false} PackByteBits(bits: seq<bool>, k: nat)
    requires |bits| <= 8
    ensures TestBit(PackByte(bits), k) == (k < |bits| && bits[k])
    decreases |bits|
  {
    if bits == [] {
      ZeroHasNoBits(k);
    } else {
      var b, rest := if bits[0] then 1 else 0, PackByte(bits[1..]);
      assert PackByte(bits) == b + 2 * rest;
      if k == 0 {
        assert (b + 2 * rest) % 2 == b;
      } else {
        assert (b + 2 * rest) / 2 == rest;
        PackByteBits(bits[1..], k - 1);
      }
    }
  }

  /** Bit `i` of the packed bytes is `bits[i]`, and reads past the end are false. */
  lemma {:induction false} PackBits(bits: seq<bool>, i: nat)
    ensures BitSetGet(Pack(bits), i) == (i < |bits| && bits[i])
    decreases |bits|
  {
    if bits != [] {
      var n := if |bits| < 8 then |bits| else 8;
      var p := Pack(bits);
      assert p[1..] == Pack(bits[n..]);
      if i < 8 {
        assert i / 8 == 0 && i % 8 == i;
        PackByteBits(bits[..n], i);
      } else {
        assert i / 8 == (i - 8) / 8 + 1 && i % 8 == (i - 8) % 8;
        PackBits(bits[n..], i - 8);
        if i < |bits| {
          assert bits[n..][i - 8] == bits[i];
        }
      }
    }
  }

  /** Dropping trailing zero bytes changes no bit. */
  lemma {:induction false} TrimKeepsBits(bytes: seq<Byte>, i: nat)
    ensures BitSetGet(TrimZeros(bytes), i) == BitSetGet(bytes, i)
    decreases |bytes|
  {
    if bytes != [] && bytes[|bytes| - 1] == 0 {
      TrimKeepsBits(bytes[..|bytes| - 1], i);
      if i / 8 == |bytes| - 1 {
        ZeroHasNoBits(i % 8);
      }
    }
  }

  /** Joining one more string at the end. */
  lemma ConcatSnoc<T>(parts: seq<seq<T>>, p: seq<T>)
    ensures Concat(parts + [p]) == Concat(parts) + p
  {
    assert (parts + [p])[..|parts|] == parts;
  }

  /**
   * `writeBits` is bit-exact: the block records the length, bit `i` is set
   * exactly when character `i` is '1', bits past the end read back as clear,
   * there are at most ceil(L / 8) bytes and the last byte is never zero.
   */
  lemma PackedSpec(s: string)
    ensures Packed(s).bitLength == |s|
    ensures forall i: nat :: BitSetGet(Packed(s).bytes, i) <==> i < |s| && s[i] == '1'
    ensures |Packed(s).bytes| <= (|s| + 7) / 8
    ensures Packed(s).bytes == [] || Packed(s).bytes[|Packed(s).bytes| - 1] != 0
  {
    forall i: nat ensures BitSetGet(Packed(s).bytes, i) <==> i < |s| && s[i] == '1' {
      TrimKeepsBits(Pack(BitsOf(s)), i);
      PackBits(BitsOf(s), i);
    }
  }

  /** Reading back `bitLength` bits of a packed block gives exactly the bit string written. */
  lemma UnpackPacked(s: string)
    requires IsBinary(s)
    ensures Unpacked(Packed(s)) == s
  {
    PackedSpec(s);
    var u := Unpacked(Packed(s));
    forall i | 0 <= i < |s| ensures u[i] == s[i] {
      assert BitSetGet(Packed(s).bytes, i) <==> s[i] == '1';
    }
  }

  /** The blocks of the concatenation of bit strings read back as that concatenation. */
  lemma {:induction false} UnpackAllPacked(parts: seq<string>)
    requires forall k :: 0 <= k < |parts| ==> IsBinary(parts[k])
    ensures UnpackedAll(PackedAll(parts)) == Concat(parts)
    ensures BitCount(PackedAll(parts)) == |Concat(parts)|
    decreases |parts|
  {
    if parts != [] {
      var init := parts[..|parts| - 1];
      UnpackAllPacked(init);
      assert PackedAll(parts)[..|parts| - 1] == PackedAll(init);
      UnpackPacked(parts[|parts| - 1]);
    }
  }

  /** One block per bit string, in order. */
  function PackedAll(parts: seq<string>): (r: seq<Block>)
    ensures |r| == |parts|
  {
    if parts == [] then [] else PackedAll(parts[..|parts| - 1]) + [Packed(parts[|parts| - 1])]
  }

  /** Block `k` records the length of bit string `k`. */
  lemma {:induction false} PackedAllLengths(parts: seq<string>)
    ensures forall k :: 0 <= k < |parts| ==> PackedAll(parts)[k].bitLength == |parts[k]|
    decreases |parts|
  {
    if parts != [] {
      var init := parts[..|parts| - 1];
      PackedAllLengths(init);
      assert forall k :: 0 <= k < |init| ==> PackedAll(parts)[k] == PackedAll(init)[k] && parts[k] == init[k];
    }
  }

  /** The strings joined in order. */
  function Concat<T>(parts: seq<seq<T>>): seq<T>
  {
    if parts == [] then [] else Concat(parts[..|parts| - 1]) + parts[|parts| - 1]
  }

  /**
   * `writeBits`: set bit `i` of an initially clear bit set for every '1' at
   * position `i`, then emit the bit count and the set's byte array.
   */
  method WriteBits(encodedText: string) returns (b: Block)
    ensures b == Packed(encodedText)
  {
    var bitSet := new bool[|encodedText|](_ => false);
    var i := 0;
    while i < |encodedText|
      invariant 0 <= i <= |encodedText|
      invariant forall k :: 0 <= k < i ==> bitSet[k] == (encodedText[k] == '1')
      invariant forall k :: i <= k < |encodedText| ==> !bitSet[k]
    {
      if encodedText[i] == '1' {
        bitSet[i] := true;
      }
      i := i + 1;
    }
    assert bitSet[..] == BitsOf(encodedText);
    var bytes := ToByteArray(bitSet[..]);
    b := Block(|encodedText|, bytes);
  }
}
