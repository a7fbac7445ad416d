/** Bits of a byte and of a byte buffer, and the bit_array operations that move bits between them
    (src/common/fixed_array.hpp). A bit_array is a sequence of booleans, index 0 first. */
module BitArray {

  /** Bit k of a byte, bit 0 being the least significant one. */
  function Bit(b: bv8, k: nat): bool
    requires k < 8
    decreases k
  {
    if k == 0 then b & 1 == 1 else Bit(b >> 1, k - 1)
  }

  /** Sets bit p of the byte n to b. */
  function ModifyBit(n: bv8, p: nat, b: bool): bv8
    requires p < 8
  {
    var v: bv8 := if b then 1 else 0;
    (n & !((1 as bv8) << p)) | ((v << p) & ((1 as bv8) << p))
  }

  /** The same bit, picked out with a mask. */
  function MaskBit(b: bv8, k: nat): bool
    requires k < 8
  {
    if k == 0 then b & 0x01 != 0 else if k == 1 then b & 0x02 != 0
    else if k == 2 then b & 0x04 != 0 else if k == 3 then b & 0x08 != 0
    else if k == 4 then b & 0x10 != 0 else if k == 5 then b & 0x20 != 0
    else if k == 6 then b & 0x40 != 0 else b & 0x80 != 0
  }

  lemma BitMasks(b: bv8)
    ensures forall k | 0 <= k < 8 :: Bit(b, k) == MaskBit(b, k)
  {
    assert Bit(b, 0) == MaskBit(b, 0) && Bit(b, 1) == MaskBit(b, 1);
    assert Bit(b, 2) == MaskBit(b, 2) && Bit(b, 3) == MaskBit(b, 3);
    assert Bit(b, 4) == MaskBit(b, 4) && Bit(b, 5) == MaskBit(b, 5);
    assert Bit(b, 6) == MaskBit(b, 6) && Bit(b, 7) == MaskBit(b, 7);
  }

  /** A byte is its eight bits. */
  lemma ByteExtensionality(a: bv8, b: bv8)
    requires forall k | 0 <= k < 8 :: Bit(a, k) == Bit(b, k)
    ensures a == b
  {
    BitMasks(a);
    BitMasks(b);
    assert forall k | 0 <= k < 8 :: MaskBit(a, k) == MaskBit(b, k);
    assert MaskBit(a, 0) == MaskBit(b, 0) && MaskBit(a, 1) == MaskBit(b, 1);
    assert MaskBit(a, 2) == MaskBit(b, 2) && MaskBit(a, 3) == MaskBit(b, 3);
    assert MaskBit(a, 4) == MaskBit(b, 4) && MaskBit(a, 5) == MaskBit(b, 5);
    assert MaskBit(a, 6) == MaskBit(b, 6) && MaskBit(a, 7) == MaskBit(b, 7);
  }

  lemma ModifyMaskBit(n: bv8, p: nat, b: bool, k: nat)
    requires p < 8 && k < 8
    ensures MaskBit(ModifyBit(n, p, b), k) == if k == p then b else MaskBit(n, k)
  {
    match p
    case 0 =>
    case 1 =>
    case 2 =>
    case 3 =>
    case 4 =>
    case 5 =>
    case 6 =>
    case _ => assert p == 7;
  }

  /** modify_bit changes the bit it names, to the value it is given, and no other bit. */
  lemma ModifyBitAt(n: bv8, p: nat, b: bool, k: nat)
    requires p < 8 && k < 8
    ensures Bit(ModifyBit(n, p, b), k) == if k == p then b else Bit(n, k)
  {
    BitMasks(n);
    BitMasks(ModifyBit(n, p, b));
    ModifyMaskBit(n, p, b, k);
  }

  /** modify_bit as a step on a variable: what the loops below know about it. */
  method SetBit(n: bv8, p: nat, b: bool) returns (m: bv8)
    requires p < 8
    ensures m == ModifyBit(n, p, b)
    ensures forall k {:trigger Bit(m, k)} | 0 <= k < 8 :: Bit(m, k) == if k == p then b else Bit(n, k)
  {
    m := ModifyBit(n, p, b);
    forall k | 0 <= k < 8
      ensures Bit(m, k) == if k == p then b else Bit(n, k)
    {
      ModifyBitAt(n, p, b, k);
    }
  }

  /** Bit j of a buffer whose bytes are filled from their most significant bit down. */
  function MsbBit(buffer: seq<bv8>, j: nat): bool
    requires j < 8 * |buffer|
  {
    Bit(buffer[j / 8], 7 - j % 8)
  }

  /** Bit j of a buffer whose bytes are filled from their least significant bit up. */
  function LsbBit(buffer: seq<bv8>, j: nat): bool
    requires j < 8 * |buffer|
  {
    Bit(buffer[j / 8], j % 8)
  }

  lemma BitIsMask(b: bv8, k: nat)
    requires k < 8
    ensures Bit(b, k) == (b & ((1 as bv8) << k) != 0)
  {
    BitMasks(b);
    hide Bit;
    assert Bit(b, k) == MaskBit(b, k);
    match k
    case 0 =>
    case 1 =>
    case 2 =>
    case 3 =>
    case 4 =>
    case 5 =>
    case 6 =>
    case _ => assert k == 7;
  }

  /** Which bits of which bytes these are. */
  lemma BufferBit(buffer: seq<bv8>, i: nat, k: nat)
    requires i < |buffer| && k < 8
    ensures MsbBit(buffer, 8 * i + k) == (buffer[i] & ((1 as bv8) << (7 - k)) != 0)
    ensures LsbBit(buffer, 8 * i + k) == (buffer[i] & ((1 as bv8) << k) != 0)
  {
    hide Bit;
    BitIsMask(buffer[i], k);
    BitIsMask(buffer[i], 7 - k);
    assert (8 * i + k) / 8 == i && (8 * i + k) % 8 == k;
  }

  /** Stores one bit of a buffer, most significant bit of each byte first. */
  method PutMsbBit(str: array<bv8>, j: nat, b: bool)
    requires j < 8 * str.Length
    modifies str
    ensures forall i {:trigger MsbBit(str[..], i)} | 0 <= i < 8 * str.Length ::
              MsbBit(str[..], i) == if i == j then b else old(MsbBit(str[..], i))
  {
    str[j / 8] := SetBit(str[j / 8], 7 - j % 8, b);
  }

  /** to_string: writes bits [start, end) into the buffer from bit `offset` on. */
  method ToString(bits: seq<bool>, str: array<bv8>, offset: nat, start: nat, end: nat)
    requires start <= end <= |bits|
    requires offset + (end - start) <= 8 * str.Length
    modifies str
    ensures forall j {:trigger MsbBit(str[..], j)} | 0 <= j < 8 * str.Length ::
              MsbBit(str[..], j) == if offset <= j < offset + (end - start) then bits[start + (j - offset)]
                                    else old(MsbBit(str[..], j))
  {
    for i := start to end
      invariant forall j {:trigger MsbBit(str[..], j)} | 0 <= j < 8 * str.Length ::
                  MsbBit(str[..], j) == if offset <= j < offset + (i - start) then bits[start + (j - offset)]
                                        else old(MsbBit(str[..], j))
    {
      PutMsbBit(str, offset + (i - start), bits[i]);
    }
  }
}
