/** The bit stream of src/common/bitstream.cpp: a cursor over bytes, least significant bit first.
    Its meaning is a plain sequence of bits and a position in it. */
module Bitstreams {
  import opened BitArray

  function Min(a: nat, b: nat): nat {
    if a < b then a else b
  }

  /** The bits of a run of bytes, least significant bit of each byte first. */
  function BitsOf(bytes: seq<bv8>): (bits: seq<bool>)
    ensures |bits| == 8 * |bytes|
    ensures forall j | 0 <= j < |bits| :: bits[j] == LsbBit(bytes, j)
  {
    seq(8 * |bytes|, j requires 0 <= j < 8 * |bytes| => LsbBit(bytes, j))
  }

  function Zeros(n: nat): (bits: seq<bool>)
    ensures |bits| == n && forall j | 0 <= j < n :: !bits[j]
  {
    seq(n, _ => false)
  }

  /** What a read of n bits delivers: the bits up to the end of the stream, n of them at most. */
  function ReadBits(bits: seq<bool>, pos: nat, n: nat): seq<bool>
    requires pos <= |bits|
  {
    bits[pos..pos + Min(n, |bits| - pos)]
  }

  /** The sequence with the bits from pos on replaced. */
  function Overwrite(bits: seq<bool>, pos: nat, written: seq<bool>): seq<bool>
    requires pos + |written| <= |bits|
  {
    bits[..pos] + written + bits[pos + |written|..]
  }

  /** The value of a signed 32-bit integer after wrap-around. */
  function ToInt32(x: int): int {
    var m := x % 0x1_0000_0000;
    if m < 0x8000_0000 then m else m - 0x1_0000_0000
  }

  lemma PrefixOfRead(bits: seq<bool>, pos: nat, n: nat, w: nat, fill: seq<bool>)
    requires pos <= |bits| && w <= Min(n, |bits| - pos)
    ensures |ReadBits(bits, pos, n)| == Min(n, |bits| - pos)
    ensures (ReadBits(bits, pos, n) + fill)[..w] == ReadBits(bits, pos, w)
  {
  }

  /** Where a seek should land: nowhere when the target lies outside the stream. */
  function SeekTarget(pos: nat, length: nat, amt: nat, dir: int): (target: int)
  {
    if (dir == 1 || dir == -1) && 0 <= pos + dir * amt <= length then pos + dir * amt else -1
  }

  /** Number of calls of edit that editN makes, with the clamp it applies. */
  function EditCalls(n: nat, byteOffset: nat, maxLen: nat): nat
    requires byteOffset <= maxLen
  {
    (if n / 8 > byteOffset + maxLen then maxLen - byteOffset else n / 8) + (if n % 8 != 0 then 1 else 0)
  }

  /** The calls all start inside the stream: the bits end in it, or the clamp applies and there are only whole bytes. */
  predicate StaysInside(n: nat, byteOffset: nat, maxLen: nat)
    requires byteOffset <= maxLen
  {
    n <= 8 * (maxLen - byteOffset) || (n / 8 > byteOffset + maxLen && n % 8 == 0)
  }

  /** A call starts at every byte up to the end of the stream, so that is when no call starts past it. */
  lemma StaysInsideIff(n: nat, byteOffset: nat, bitOffset: nat, maxLen: nat)
    requires byteOffset <= maxLen && bitOffset < 8 && (byteOffset == maxLen ==> bitOffset == 0)
    ensures StaysInside(n, byteOffset, maxLen)
       <==> EditCalls(n, byteOffset, maxLen) <= (8 * maxLen - (8 * byteOffset + bitOffset) + 7) / 8
    ensures !StaysInside(n, byteOffset, maxLen) ==> n > 8 * maxLen - (8 * byteOffset + bitOffset)
  {
    var r := maxLen - byteOffset;
    assert (8 * r - bitOffset + 7) / 8 == r;
  }

  /** The calls of editN in terms of its clamp: whole bytes first, then the rest. */
  lemma ClampedCalls(n: nat, byteOffset: nat, bitOffset: nat, maxLen: nat)
    requires byteOffset <= maxLen && bitOffset < 8 && (byteOffset == maxLen ==> bitOffset == 0)
    ensures var r, rem := maxLen - byteOffset, 8 * maxLen - (8 * byteOffset + bitOffset);
            var numIters := if n / 8 > byteOffset + maxLen then r else n / 8;
            && (StaysInside(n, byteOffset, maxLen) <==> numIters <= r && (n % 8 != 0 ==> numIters < r))
            && (numIters > r ==> Min(8 * numIters, rem) == Min(n, rem))
            && (numIters == r ==> Min(8 * numIters, rem) == Min(n, rem))
            && (numIters < r ==> 8 * numIters <= rem && n == 8 * numIters + n % 8)
  {
  }

  method ShiftOne(v: bv8) returns (r: bv8)
    ensures forall k {:trigger Bit(r, k)} | 0 <= k < 7 :: Bit(r, k) == Bit(v, k + 1)
  {
    r := v >> 1;
  }

  lemma ShiftedMaskBit(v: bv8, o: nat, k: nat)
    requires o + k < 8
    ensures MaskBit(v >> o, k) == MaskBit(v, o + k)
  {
    match o
    case 0 =>
    case 1 =>
    case 2 =>
    case 3 =>
    case 4 =>
    case 5 =>
    case 6 =>
    case _ => assert o == 7;
  }

  /** A right shift of a byte renumbers its bits. */
  method ShiftRight(v: bv8, o: nat) returns (r: bv8)
    requires o <= 8
    ensures forall k {:trigger Bit(r, k)} | 0 <= k < 8 - o :: Bit(r, k) == Bit(v, o + k)
  {
    hide Bit, MaskBit;
    r := v >> o;
    BitMasks(v);
    BitMasks(r);
    forall k | 0 <= k < 8 - o
      ensures Bit(r, k) == Bit(v, o + k)
    {
      ShiftedMaskBit(v, o, k);
      assert Bit(r, k) == MaskBit(r, k) && Bit(v, o + k) == MaskBit(v, o + k);
    }
  }

  /** Bit t of two neighbouring bytes. */
  function WindowBit(first: bv8, second: bv8, t: nat): bool
    requires t < 16
  {
    if t < 8 then Bit(first, t) else Bit(second, t - 8)
  }

  /** The bits of a stream of `len` bytes that lie in byte i and its successor, if it has one. */
  lemma WindowOfStream(bytes: seq<bv8>, len: nat, i: nat, second: bv8, t: nat)
    requires i < len <= |bytes| && t < if i + 1 < len then 16 else 8
    requires i + 1 < len ==> second == bytes[i + 1]
    ensures LsbBit(bytes, 8 * i + t) == WindowBit(bytes[i], second, t)
  {
    hide Bit;
    if t < 8 {
      assert (8 * i + t) / 8 == i && (8 * i + t) % 8 == t;
    } else {
      assert (8 * i + t) / 8 == i + 1 && (8 * i + t) % 8 == t - 8;
    }
  }

  /** The bytes after n low bits of val were written at bit position p. */
  ghost predicate Stored(before: seq<bv8>, after: seq<bv8>, p: nat, n: nat, val: bv8)
    requires n <= 8
  {
    && |after| == |before|
    && forall j | 0 <= j < 8 * |before| ::
         LsbBit(after, j) == if p <= j < p + n then Bit(val, j - p) else LsbBit(before, j)
  }

  /** Writing the two halves of a window writes the bits at consecutive positions of the stream. */
  lemma WindowStored(before: seq<bv8>, i: nat, o: nat, n: nat, val: bv8, lower: bv8, upper: bv8, second: bv8)
    requires i < |before| && o < 8 && n <= 8 && (o + n > 8 ==> i + 1 < |before| && second == before[i + 1])
    requires forall k | 0 <= k < 8 :: Bit(lower, k) == if o <= k < o + n then Bit(val, k - o) else Bit(before[i], k)
    requires forall k | 0 <= k < 8 :: Bit(upper, k) == if k + 8 < o + n then Bit(val, 8 - o + k) else Bit(second, k)
    ensures var once := before[i := lower];
            Stored(before, if o + n > 8 then once[i + 1 := upper] else once, 8 * i + o, n, val)
  {
    hide Bit, LsbBit;
    var once := before[i := lower];
    var after := if o + n > 8 then once[i + 1 := upper] else once;
    forall j | 0 <= j < 8 * |before|
      ensures LsbBit(after, j) == if 8 * i + o <= j < 8 * i + o + n then Bit(val, j - (8 * i + o)) else LsbBit(before, j)
    {
      BitAfterWindow(before, after, i, o, n, val, lower, upper, second, j);
    }
  }

  lemma BitAfterWindow(before: seq<bv8>, after: seq<bv8>, i: nat, o: nat, n: nat, val: bv8, lower: bv8, upper: bv8,
                       second: bv8, j: nat)
    requires i < |before| && o < 8 && n <= 8 && (o + n > 8 ==> i + 1 < |before| && second == before[i + 1])
    requires forall k | 0 <= k < 8 :: Bit(lower, k) == if o <= k < o + n then Bit(val, k - o) else Bit(before[i], k)
    requires forall k | 0 <= k < 8 :: Bit(upper, k) == if k + 8 < o + n then Bit(val, 8 - o + k) else Bit(second, k)
    requires after == if o + n > 8 then before[i := lower][i + 1 := upper] else before[i := lower]
    requires j < 8 * |before|
    ensures LsbBit(after, j) == if 8 * i + o <= j < 8 * i + o + n then Bit(val, j - (8 * i + o)) else LsbBit(before, j)
  {
    hide Bit;
    var b, k := j / 8, j % 8;
    if b == i {
      assert Bit(lower, k) == if o <= k < o + n then Bit(val, k - o) else Bit(before[i], k);
    } else if b == i + 1 && o + n > 8 {
      assert Bit(upper, k) == if k + 8 < o + n then Bit(val, 8 - o + k) else Bit(second, k);
    } else {
      assert after[b] == before[b];
    }
  }

  lemma ByteOfBuffer(bytes: seq<bv8>, i: nat, k: nat)
    requires i < |bytes| && k < 8
    ensures LsbBit(bytes, 8 * i + k) == Bit(bytes[i], k)
  {
    hide Bit;
    assert (8 * i + k) / 8 == i && (8 * i + k) % 8 == k;
  }

  lemma PrefixBit(bytes: seq<bv8>, len: nat, j: nat)
    requires len <= |bytes| && j < 8 * len
    ensures LsbBit(bytes[..len], j) == LsbBit(bytes, j)
  {
  }

  /** Storing a byte of a buffer changes its eight bits. */
  lemma ByteStored(bytes: seq<bv8>, i: nat, x: bv8, k: nat)
    requires i < |bytes| && k < 8 * |bytes|
    ensures LsbBit(bytes[i := x], k) == if 8 * i <= k < 8 * i + 8 then Bit(x, k - 8 * i) else LsbBit(bytes, k)
  {
    hide Bit;
    assert k == 8 * (k / 8) + k % 8;
  }

  /** The state of a read: of the first len bytes of the result, the first n bits are the stream's bits from p on,
      the others are zero. */
  ghost predicate Delivered(bytes: seq<bv8>, p: nat, n: nat, res: seq<bv8>, len: nat) {
    && len <= |res| && p + n <= 8 * |bytes|
    && forall k {:trigger LsbBit(res, k)} | 0 <= k < 8 * len :: LsbBit(res, k) == (k < n && LsbBit(bytes, p + k))
  }

  lemma DeliveredStart(bytes: seq<bv8>, p: nat, res: seq<bv8>, len: nat)
    requires len <= |res| && p <= 8 * |bytes|
    requires forall k {:trigger LsbBit(res, k)} | 0 <= k < 8 * len :: !LsbBit(res, k)
    ensures Delivered(bytes, p, 0, res, len)
  {
  }

  lemma DeliveredBits(contents: seq<bv8>, bytes: seq<bv8>, p: nat, n: nat, read: nat, res: seq<bv8>, len: nat)
    requires contents <= bytes && p <= 8 * |contents|
    requires len == (n + 7) / 8 && read == Min(n, 8 * |contents| - p)
    requires Delivered(bytes, p, read, res, len)
    ensures BitsOf(res[..len]) == ReadBits(BitsOf(contents), p, n) + Zeros(8 * len - read)
  {
    hide Bit;
    var got, want := BitsOf(res[..len]), ReadBits(BitsOf(contents), p, n) + Zeros(8 * len - read);
    forall k | 0 <= k < 8 * len
      ensures got[k] == want[k]
    {
      assert LsbBit(res[..len], k) == LsbBit(res, k);
      if k < read {
        assert LsbBit(contents, p + k) == LsbBit(bytes, p + k);
      }
    }
  }

  lemma DeliveredBitArray(contents: seq<bv8>, bytes: seq<bv8>, p: nat, n: nat, read: nat, res: seq<bool>)
    requires contents <= bytes && p <= 8 * |contents|
    requires read == Min(n, 8 * |contents| - p) && read <= |res|
    requires forall j | 0 <= j < |res| :: res[j] == (j < read && LsbBit(bytes, p + j))
    ensures res == ReadBits(BitsOf(contents), p, n) + Zeros(|res| - read)
  {
    hide Bit;
    forall j | 0 <= j < read
      ensures res[j] == BitsOf(contents)[p + j]
    {
      assert LsbBit(contents, p + j) == LsbBit(bytes, p + j);
    }
  }

  /** The state of a write: n bits of val stand at position p, everything else is as before. */
  ghost predicate Edited(before: seq<bv8>, after: seq<bv8>, p: nat, n: nat, val: seq<bv8>) {
    && |after| == |before| && n <= 8 * |val|
    && forall j {:trigger LsbBit(after, j)} | 0 <= j < 8 * |before| ::
         LsbBit(after, j) == if p <= j < p + n then LsbBit(val, j - p) else LsbBit(before, j)
  }

  lemma EditedStart(before: seq<bv8>, p: nat, val: seq<bv8>)
    ensures Edited(before, before, p, 0, val)
  {
  }

  lemma EditedStep(before: seq<bv8>, mid: seq<bv8>, after: seq<bv8>, p: nat, n: nat, w: nat, val: seq<bv8>, i: nat)
    requires n == 8 * i && i < |val| && w <= 8
    requires Edited(before, mid, p, n, val) && Stored(mid, after, p + n, w, val[i])
    ensures Edited(before, after, p, n + w, val)
  {
    hide LsbBit, Bit;
    forall j | 0 <= j < 8 * |before|
      ensures LsbBit(after, j) == if p <= j < p + n + w then LsbBit(val, j - p) else LsbBit(before, j)
    {
      if p + n <= j < p + n + w {
        ByteOfBuffer(val, i, j - (p + n));
        assert 8 * i + (j - (p + n)) == j - p;
      }
    }
  }

  lemma EditedContents(before: seq<bv8>, after: seq<bv8>, len: nat, p: nat, n: nat, val: seq<bv8>)
    requires Edited(before, after, p, n, val) && len <= |before| && p + n <= 8 * len
    ensures BitsOf(after[..len]) == Overwrite(BitsOf(before[..len]), p, BitsOf(val)[..n])
    ensures after[len..] == before[len..]
  {
    hide LsbBit, Bit;
    var got, want := BitsOf(after[..len]), Overwrite(BitsOf(before[..len]), p, BitsOf(val)[..n]);
    forall j | 0 <= j < 8 * len
      ensures got[j] == want[j]
    {
      PrefixBit(after, len, j);
      PrefixBit(before, len, j);
      assert LsbBit(after, j) == if p <= j < p + n then LsbBit(val, j - p) else LsbBit(before, j);
    }
    forall m | len <= m < |before|
      ensures after[m] == before[m]
    {
      forall k | 0 <= k < 8
        ensures Bit(after[m], k) == Bit(before[m], k)
      {
        ByteOfBuffer(after, m, k);
        ByteOfBuffer(before, m, k);
      }
      ByteExtensionality(after[m], before[m]);
    }
  }

  method ClearBits(bitArr: array<bool>)
    modifies bitArr
    ensures forall j | 0 <= j < bitArr.Length :: !bitArr[j]
  {
    for i := 0 to bitArr.Length
      invariant forall j | 0 <= j < i :: !bitArr[j]
    {
      bitArr[i] := false;
    }
  }

  /** memset to zero. */
  method Clear(res: array<bv8>, len: nat)
    requires len <= res.Length
    modifies res
    ensures forall k {:trigger LsbBit(res[..], k)} | 0 <= k < 8 * len :: !LsbBit(res[..], k)
    ensures res[len..] == old(res[len..])
  {
    for i := 0 to len
      invariant forall m | 0 <= m < i :: res[m] == 0
      invariant res[len..] == old(res[len..])
    {
      res[i] := 0;
    }
    forall k {:trigger LsbBit(res[..], k)} | 0 <= k < 8 * len
      ensures !LsbBit(res[..], k)
    {
      BitMasks(0);
      assert res[k / 8] == 0 && !MaskBit(0, k % 8);
    }
  }

  /** The loop of next and edit that moves the low bits of one byte, one at a time, into another from bit `at` on. */
  method MoveBits(val: bv8, count: nat, into: bv8, at: nat) returns (out: bv8)
    requires at + count <= 8
    ensures forall k {:trigger Bit(out, k)} | 0 <= k < 8 ::
              Bit(out, k) == if at <= k < at + count then Bit(val, k - at) else Bit(into, k)
  {
    hide Bit, ModifyBit;
    out := into;
    var v := val;
    for i := 0 to count
      invariant forall k {:trigger Bit(v, k)} | 0 <= k < 8 - i :: Bit(v, k) == Bit(val, i + k)
      invariant forall k {:trigger Bit(out, k)} | 0 <= k < 8 ::
                  Bit(out, k) == if at <= k < at + i then Bit(val, k - at) else Bit(into, k)
    {
      ghost var v0, out0 := v, out;
      out := SetBit(out, at + i, Bit(v, 0));
      v := ShiftOne(v);
      forall k | 0 <= k < 8 - (i + 1)
        ensures Bit(v, k) == Bit(val, i + 1 + k)
      {
        assert Bit(v, k) == Bit(v0, k + 1) && Bit(v0, k + 1) == Bit(val, i + (k + 1));
      }
      forall k | 0 <= k < 8
        ensures Bit(out, k) == if at <= k < at + (i + 1) then Bit(val, k - at) else Bit(into, k)
      {
        assert Bit(v0, 0) == Bit(val, i + 0);
        assert k != at + i ==> Bit(out, k) == Bit(out0, k);
      }
    }
  }

  /** Where seekG really lands: the offset arithmetic is done in 32 bits. */
  function WrappedSeek(pos: nat, length: nat, amt: nat, dir: int): (target: int)
  {
    var d := ToInt32(pos + dir * amt);
    if (dir == 1 || dir == -1) && 0 <= d <= length then d else -1
  }

  /** seekG meets its documentation exactly when the amount, added to the distance from the end it starts at,
      stays below 2^32; past that a request it should refuse moves the cursor and reports success. */
  lemma SeekIsExactIff(pos: nat, length: nat, amt: nat, dir: int)
    requires pos <= length < 0x8000_0000 && (dir == 1 || dir == -1) && amt < 0x1_0000_0000
    ensures WrappedSeek(pos, length, amt, dir) == SeekTarget(pos, length, amt, dir)
       <==> (if dir == 1 then pos else length - pos) + amt < 0x1_0000_0000
  {
  }

  /** The byte-level part of next: n bits of the window from bit `offset` on, moved to the low end of `u8`. */
  method TakeWindow(first: bv8, second: bv8, offset: nat, n: nat, u8: bv8) returns (out: bv8)
    requires offset < 8 && n <= 8
    ensures forall k {:trigger Bit(out, k)} | 0 <= k < 8 ::
              Bit(out, k) == if k < n then WindowBit(first, second, offset + k) else Bit(u8, k)
  {
    var val := ShiftRight(first, offset);
    var lower := Min(8 - offset, n);
    out := MoveBits(val, lower, u8, 0);
    out := MoveBits(second, n - lower, out, lower);
  }

  /** The byte-level part of edit: the low n bits of `val` moved into the window from bit `offset` on. */
  method PutWindow(first: bv8, second: bv8, offset: nat, n: nat, val: bv8) returns (lower: bv8, upper: bv8)
    requires offset < 8 && n <= 8
    ensures forall k {:trigger Bit(lower, k)} | 0 <= k < 8 ::
              Bit(lower, k) == if offset <= k < offset + n then Bit(val, k - offset) else Bit(first, k)
    ensures forall k {:trigger Bit(upper, k)} | 0 <= k < 8 ::
              Bit(upper, k) == if k + 8 < offset + n then Bit(val, 8 - offset + k) else Bit(second, k)
  {
    var count := Min(8 - offset, n);
    lower := MoveBits(val, count, first, offset);
    var rest := ShiftRight(val, count);
    upper := MoveBits(rest, n - count, second, 0);
  }

  class Bitstream {
    var bitOffset: nat
    var stream: array<bv8>
    var byteOffset: nat
    var maxLen: nat

    ghost predicate Valid()
      reads this
    {
      && maxLen <= stream.Length
      && maxLen < 0x1000_0000
      && bitOffset < 8
      && (byteOffset < maxLen || (byteOffset == maxLen && bitOffset == 0))
    }

    ghost function Pos(): nat
      reads this
    {
      8 * byteOffset + bitOffset
    }

    ghost function Rem(): nat
      requires Valid()
      reads this
    {
      8 * maxLen - Pos()
    }

    /** The stream as a plain bit sequence. */
    ghost function Contents(): (bits: seq<bool>)
      requires Valid()
      reads this, stream
      ensures |bits| == 8 * maxLen
    {
      BitsOf(stream[..maxLen])
    }

    constructor (input: array<bv8>, streamSize: nat)
      requires streamSize <= input.Length && streamSize < 0x1000_0000
      ensures Valid() && stream == input && maxLen == streamSize && Pos() == 0
    {
      bitOffset, stream, byteOffset, maxLen := 0, input, 0, streamSize;
    }

    method HasNext() returns (b: bool)
      requires Valid()
      ensures b <==> Rem() > 0
    {
      b := byteOffset < maxLen;
    }

    method SeekG(amt: nat, dir: int) returns (moved: nat)
      requires Valid()
      modifies this`byteOffset, this`bitOffset
      ensures Valid()
      ensures var target := WrappedSeek(old(Pos()), 8 * maxLen, amt, dir);
              if target == -1 then moved == 0 && Pos() == old(Pos()) else moved == amt && Pos() == target
      ensures amt <= 0x8000_0000 ==>
                var target := SeekTarget(old(Pos()), 8 * maxLen, amt, dir);
                if target == -1 then moved == 0 && Pos() == old(Pos()) else moved == amt && Pos() == target
    {
      hide ToInt32;
      if dir != -1 && dir != 1 {
        return 0;
      }
      if amt <= 0x8000_0000 {
        SeekIsExactIff(Pos(), 8 * maxLen, amt, dir);
      }
      var desiredOff := ToInt32(8 * byteOffset + bitOffset + dir * amt);
      if desiredOff > 8 * maxLen || desiredOff < 0 {
        return 0;
      }
      byteOffset, bitOffset := desiredOff / 8, desiredOff % 8;
      moved := amt;
    }

    method Next(numBits: nat, u8: bv8) returns (bitsRead: nat, out: bv8)
      requires Valid() && byteOffset < maxLen
      modifies this`byteOffset, this`bitOffset
      ensures Valid()
      ensures bitsRead == if numBits > 8 then 0 else Min(numBits, old(Rem()))
      ensures Pos() == old(Pos()) + bitsRead
      ensures forall k {:trigger Bit(out, k)} | 0 <= k < 8 ::
                Bit(out, k) == if k < bitsRead then LsbBit(stream[..], old(Pos()) + k) else Bit(u8, k)
    {
      hide LsbBit;
      out := u8;
      if numBits > 8 {
        return 0, out;
      }
      var hasSecond := byteOffset + 1 < maxLen;
      var second := if hasSecond then stream[byteOffset + 1] else 0;
      bitsRead := if hasSecond then numBits else Min(numBits, 8 - bitOffset);
      out := TakeWindow(stream[byteOffset], second, bitOffset, bitsRead, u8);
      ghost var bytes, p := stream[..], Pos();
      forall k {:trigger Bit(out, k)} | 0 <= k < bitsRead
        ensures Bit(out, k) == LsbBit(bytes, p + k)
      {
        WindowOfStream(bytes, maxLen, byteOffset, second, bitOffset + k);
        assert 8 * byteOffset + (bitOffset + k) == p + k;
      }
      var _ := SeekG(bitsRead, 1);
      assert stream[..] == bytes;
    }

    /** The part of edit that changes the stream. */
    method EditBytes(n: nat, val: bv8)
      requires Valid() && byteOffset < stream.Length && n <= 8 && (bitOffset + n > 8 ==> byteOffset + 1 < maxLen)
      modifies stream
      ensures Stored(old(stream[..]), stream[..], Pos(), n, val)
    {
      hide LsbBit, Bit, Stored;
      ghost var before := stream[..];
      var hasSecond := 8 - bitOffset < n;
      var second := if hasSecond then stream[byteOffset + 1] else 0;
      var lower, upper := PutWindow(stream[byteOffset], second, bitOffset, n, val);
      WindowStored(before, byteOffset, bitOffset, n, val, lower, upper, second);
      StoreWindow(hasSecond, lower, upper);
    }

    method StoreWindow(hasSecond: bool, lower: bv8, upper: bv8)
      requires byteOffset < stream.Length && (hasSecond ==> byteOffset + 1 < stream.Length)
      modifies stream
      ensures var once := old(stream[..])[byteOffset := lower];
              stream[..] == if hasSecond then once[byteOffset + 1 := upper] else once
    {
      stream[byteOffset] := lower;
      if hasSecond {
        stream[byteOffset + 1] := upper;
      }
    }

    /** At the end of the stream edit writes the byte behind it, if there is one, and the cursor stays. */
    method Edit(numBits: nat, val: bv8) returns (bitsWritten: nat)
      requires Valid() && byteOffset < stream.Length
      modifies this`byteOffset, this`bitOffset, stream
      ensures Valid()
      ensures bitsWritten == if old(Rem()) > 0 then Min(Min(numBits, 8), old(Rem())) else Min(numBits, 8)
      ensures Pos() == old(Pos()) + if old(Rem()) > 0 then bitsWritten else 0
      ensures Stored(old(stream[..]), stream[..], old(Pos()), bitsWritten, val)
    {
      hide LsbBit, Bit, Stored, ToInt32;
      bitsWritten := Min(Min(numBits, 8), if byteOffset + 1 < maxLen then 8 else 8 - bitOffset);
      EditBytes(bitsWritten, val);
      ghost var after := stream[..];
      var _ := SeekG(bitsWritten, 1);
      assert stream[..] == after;
    }

    /** Reads n bits into bytes; bits the stream no longer has are delivered as zeros. */
    method NextN(n: nat, res: array<bv8>) returns (bitsRead: nat)
      requires Valid() && (n + 7) / 8 <= res.Length && res != stream
      modifies this`byteOffset, this`bitOffset, res
      ensures Valid()
      ensures bitsRead == Min(n, old(Rem())) && Pos() == old(Pos()) + bitsRead
      ensures BitsOf(res[..(n + 7) / 8])
           == ReadBits(Contents(), old(Pos()), n) + Zeros(8 * ((n + 7) / 8) - bitsRead)
      ensures res[(n + 7) / 8..] == old(res[(n + 7) / 8..])
    {
      hide LsbBit, Delivered, BitsOf, ReadBits, Zeros;
      ghost var p, bytes, tail, len := Pos(), stream[..], res[(n + 7) / 8..], (n + 7) / 8;
      Clear(res, (n + 7) / 8);
      DeliveredStart(bytes, p, res[..], len);
      var more: bool;
      bitsRead, more := NextWhole(n / 8, res, bytes, p, len);
      if n % 8 != 0 && more {
        var read := DeliverNext(n % 8, res, n / 8, bytes, p, bitsRead, len);
        bitsRead := bitsRead + read;
      }
      DeliveredBits(stream[..maxLen], bytes, p, n, bitsRead, res[..], len);
    }

    /** The calls of nextN with whole bytes. */
    method NextWhole(numIters: nat, res: array<bv8>, ghost bytes: seq<bv8>, ghost p: nat, ghost len: nat)
        returns (bitsRead: nat, more: bool)
      requires Valid() && numIters <= len <= res.Length && res != stream
      requires bytes == stream[..] && Pos() == p && Delivered(bytes, p, 0, res[..], len)
      modifies this`byteOffset, this`bitOffset, res
      ensures Valid() && stream[..] == bytes && (more <==> Rem() > 0)
      ensures bitsRead == Min(8 * numIters, old(Rem())) && Pos() == p + bitsRead
      ensures Delivered(bytes, p, bitsRead, res[..], len) && res[len..] == old(res[len..])
    {
      hide LsbBit, Delivered;
      bitsRead := 0;
      var i := 0;
      more := HasNext();
      while i < numIters && more
        invariant Valid() && i <= numIters && stream[..] == bytes
        invariant more <==> Rem() > 0
        invariant bitsRead == Min(8 * i, old(Rem())) && Pos() == p + bitsRead
        invariant Delivered(bytes, p, bitsRead, res[..], len) && res[len..] == old(res[len..])
      {
        var read := DeliverNext(8, res, i, bytes, p, bitsRead, len);
        i, bitsRead := i + 1, bitsRead + read;
        more := HasNext();
      }
    }

    /** One step of nextN: the next bits of the stream become the low bits of a cleared byte of the result. */
    method DeliverNext(num: nat, res: array<bv8>, i: nat, ghost bytes: seq<bv8>, ghost p: nat, ghost done: nat, ghost len: nat)
        returns (read: nat)
      requires Valid() && Rem() > 0 && num <= 8 && res != stream
      requires bytes == stream[..] && Pos() == p + done && done == 8 * i
      requires i < len <= res.Length && Delivered(bytes, p, done, res[..], len)
      modifies this`byteOffset, this`bitOffset, res
      ensures Valid() && read == Min(num, old(Rem())) && Pos() == old(Pos()) + read
      ensures Delivered(bytes, p, done + read, res[..], len)
      ensures res[len..] == old(res[len..])
    {
      hide LsbBit, Bit;
      ghost var before := res[..];
      var out;
      read, out := Next(num, res[i]);
      res[i] := out;
      assert res[..] == before[i := out];
      assert stream[..] == bytes;
      forall k | 0 <= k < 8 * len
        ensures LsbBit(res[..], k) == (k < done + read && LsbBit(bytes, p + k))
      {
        ByteStored(before, i, out, k);
        if 8 * i <= k < 8 * i + 8 {
          ByteOfBuffer(before, i, k - 8 * i);
          assert Bit(out, k - 8 * i)
              == if k - 8 * i < read then LsbBit(bytes, p + done + (k - 8 * i)) else Bit(before[i], k - 8 * i);
        }
      }
    }

    /** Reads n bits one at a time into a bit vector; nothing is read when the vector is too short. */
    method NextBits(n: nat, bitArr: array<bool>) returns (bitsRead: nat)
      requires Valid() && bitArr as object != stream
      modifies this`byteOffset, this`bitOffset, bitArr
      ensures Valid()
      ensures bitsRead == (if bitArr.Length < n then 0 else Min(n, old(Rem()))) && Pos() == old(Pos()) + bitsRead
      ensures bitArr.Length < n ==> bitArr[..] == old(bitArr[..])
      ensures bitArr.Length >= n ==>
                bitArr[..] == ReadBits(Contents(), old(Pos()), n) + Zeros(bitArr.Length - bitsRead)
    {
      hide LsbBit, Bit;
      if bitArr.Length < n {
        return 0;
      }
      ClearBits(bitArr);
      ghost var p, bytes := Pos(), stream[..];
      bitsRead := 0;
      var more := HasNext();
      while bitsRead < n && more
        invariant Valid() && bitsRead == Min(bitsRead, n) && Pos() == p + bitsRead && stream[..] == bytes
        invariant more <==> Rem() > 0
        invariant forall j | 0 <= j < bitArr.Length :: bitArr[j] == (j < bitsRead && LsbBit(bytes, p + j))
      {
        var read, u8 := Next(1, 0);
        assert Bit(u8, 0) == LsbBit(stream[..], p + bitsRead + 0);
        assert stream[..] == bytes;
        bitArr[bitsRead] := Bit(u8, 0);
        assert stream[..] == bytes;
        bitsRead := bitsRead + 1;
        more := HasNext();
      }
      DeliveredBitArray(stream[..maxLen], bytes, p, n, bitsRead, bitArr[..]);
    }

    /** Reads without moving the cursor. */
    method PeekN(n: nat, res: array<bv8>) returns (bitsPeeked: nat)
      requires Valid() && (n + 7) / 8 <= res.Length && res != stream
      modifies this`byteOffset, this`bitOffset, res
      ensures Valid() && Pos() == old(Pos()) && bitsPeeked == Min(n, Rem())
      ensures BitsOf(res[..(n + 7) / 8])
           == ReadBits(Contents(), Pos(), n) + Zeros(8 * ((n + 7) / 8) - bitsPeeked)
    {
      hide LsbBit;
      bitsPeeked := NextN(n, res);
      ghost var got := res[..(n + 7) / 8];
      var _ := SeekG(bitsPeeked, -1);
      assert res[..(n + 7) / 8] == got;
    }

    method PeekBits(n: nat, bitArr: array<bool>) returns (bitsPeeked: nat)
      requires Valid() && bitArr as object != stream
      modifies this`byteOffset, this`bitOffset, bitArr
      ensures Valid() && Pos() == old(Pos()) && bitsPeeked == if bitArr.Length < n then 0 else Min(n, Rem())
      ensures bitArr.Length >= n ==> bitArr[..] == ReadBits(Contents(), Pos(), n) + Zeros(bitArr.Length - bitsPeeked)
    {
      hide LsbBit;
      bitsPeeked := NextBits(n, bitArr);
      ghost var got := bitArr[..];
      var _ := SeekG(bitsPeeked, -1);
      assert bitArr[..] == got;
    }

    /** Overwrites the next bits of the stream, n of them at most. It goes on calling edit at the end of the stream, and writes
        past it, exactly when the n bits do not stay inside; the model stops before the first such call. */
    method EditN(n: nat, newVal: array<bv8>) returns (bitsWritten: nat, inside: bool)
      requires Valid() && (n + 7) / 8 <= newVal.Length && newVal != stream
      modifies this`byteOffset, this`bitOffset, stream
      ensures Valid()
      ensures inside <==> StaysInside(n, old(byteOffset), maxLen)
      ensures bitsWritten == Min(n, old(Rem())) && Pos() == old(Pos()) + bitsWritten
      ensures Contents() == Overwrite(old(Contents()), old(Pos()), BitsOf(newVal[..])[..bitsWritten])
      ensures stream[maxLen..] == old(stream[maxLen..])
    {
      hide LsbBit, Edited, BitsOf, Overwrite, StaysInside;
      ghost var p, before, source, start, bit := Pos(), stream[..], newVal[..], byteOffset, bitOffset;
      ClampedCalls(n, byteOffset, bitOffset, maxLen);
      var numIters := n / 8;
      if numIters > byteOffset + maxLen {
        numIters := maxLen - byteOffset;
      }
      bitsWritten, inside := EditWhole(numIters, newVal, before, p, source);
      if inside && n % 8 != 0 {
        if byteOffset == maxLen {
          inside := false;
        } else {
          bitsWritten := EditOne(n % 8, newVal[numIters], before, p, source, numIters, bitsWritten);
        }
      }
      EditedContents(before, stream[..], maxLen, p, bitsWritten, source);
    }

    /** The calls of editN with whole bytes. */
    method EditWhole(numIters: nat, newVal: array<bv8>, ghost before: seq<bv8>, ghost p: nat, ghost source: seq<bv8>)
        returns (bitsWritten: nat, inside: bool)
      requires Valid() && newVal != stream && numIters <= newVal.Length
      requires stream[..] == before && Pos() == p && newVal[..] == source
      modifies this`byteOffset, this`bitOffset, stream
      ensures Valid()
      ensures inside <==> numIters <= maxLen - old(byteOffset)
      ensures bitsWritten == Min(8 * numIters, old(Rem())) && Pos() == p + bitsWritten
      ensures Edited(before, stream[..], p, bitsWritten, source)
    {
      hide LsbBit, Edited;
      ghost var rem := Rem();
      bitsWritten := 0;
      var i := 0;
      EditedStart(before, p, source);
      while i < numIters
        invariant Valid() && i <= numIters && newVal[..] == source
        invariant i <= maxLen - old(byteOffset)
        invariant bitsWritten == Min(8 * i, rem) && Pos() == p + bitsWritten
        invariant Edited(before, stream[..], p, bitsWritten, source)
      {
        if byteOffset == maxLen {
          return bitsWritten, false;
        }
        bitsWritten := EditOne(8, newVal[i], before, p, source, i, bitsWritten);
        i := i + 1;
      }
      inside := true;
    }

    /** One call of edit among those of editN. */
    method EditOne(num: nat, val: bv8, ghost before: seq<bv8>, ghost p: nat, ghost source: seq<bv8>, ghost i: nat, written: nat)
        returns (total: nat)
      requires Valid() && Rem() > 0 && num <= 8 && i < |source| && val == source[i] && written == 8 * i && Pos() == p + written
      requires Edited(before, stream[..], p, written, source)
      modifies this`byteOffset, this`bitOffset, stream
      ensures Valid() && total == written + Min(num, old(Rem())) && Pos() == p + total
      ensures Edited(before, stream[..], p, total, source)
    {
      hide LsbBit, Bit, Stored, Edited;
      ghost var mid := stream[..];
      var w := Edit(num, val);
      EditedStep(before, mid, stream[..], p, written, w, source, i);
      total := written + w;
    }

    /** Copies up to n bits from another stream, whatever the alignment of the two cursors. */
    method EditNFrom(n: nat, other: Bitstream) returns (bitsWritten: nat, inside: bool)
      requires Valid() && other.Valid() && other != this
      modifies this`byteOffset, this`bitOffset, stream, other`byteOffset, other`bitOffset
      ensures Valid() && other.Valid()
      ensures inside <==> old(StaysInside(Min(n, other.Rem()), byteOffset, maxLen))
      ensures other.Pos() == old(other.Pos() + Min(n, other.Rem()))
      ensures bitsWritten == old(Min(Min(n, other.Rem()), Rem())) && Pos() == old(Pos()) + bitsWritten
      ensures Contents()
           == Overwrite(old(Contents()), old(Pos()), ReadBits(old(other.Contents()), old(other.Pos()), bitsWritten))
      ensures stream[maxLen..] == old(stream[maxLen..])
    {
      hide LsbBit, BitsOf, StaysInside, Overwrite, ReadBits;
      ghost var source, q := other.Contents(), other.Pos();
      var tmp := new bv8[(n + 7) / 8](_ => 0);
      var read := other.NextN(n, tmp);
      assert tmp[..] == tmp[..(n + 7) / 8];
      ghost var bits := BitsOf(tmp[..]);
      bitsWritten, inside := EditN(read, tmp);
      PrefixOfRead(source, q, n, bitsWritten, Zeros(8 * ((n + 7) / 8) - read));
    }

    /** The stream operator: what is left of one stream overwrites the front of another. */
    method CopyRest(other: Bitstream) returns (inside: bool)
      requires Valid() && other.Valid() && other != this
      modifies this`byteOffset, this`bitOffset, stream, other`byteOffset, other`bitOffset
      ensures Valid() && other.Valid() && other.Rem() == 0
      ensures inside <==> old(StaysInside(other.Rem(), byteOffset, maxLen))
      ensures Contents() == Overwrite(old(Contents()), old(Pos()),
                                      ReadBits(old(other.Contents()), old(other.Pos()), Min(old(other.Rem()), old(Rem()))))
    {
      hide LsbBit, BitsOf, StaysInside;
      var _, ok := EditNFrom((other.maxLen - other.byteOffset) * 8 - other.bitOffset, other);
      inside := ok;
    }
  }

  /** The two calls of edit that editN makes for 16 bits with one byte left of a stream of two: they report 16 bits, and the
      second overwrites the byte behind the stream. */
  method SixteenBitsPastTheEnd(bs: Bitstream, first: bv8, second: bv8) returns (bitsWritten: nat)
    requires bs.Valid() && bs.maxLen == 2 && bs.byteOffset == 1 && bs.bitOffset == 0 && bs.stream.Length > 2
    modifies bs`byteOffset, bs`bitOffset, bs.stream
    ensures bitsWritten == 16 && old(bs.Rem()) == 8 && !StaysInside(16, 1, 2)
    ensures bs.stream[1] == first && bs.stream[2] == second
  {
    hide LsbBit, Bit;
    ghost var before := bs.stream[..];
    var w1 := bs.Edit(8, first);
    ghost var mid := bs.stream[..];
    var w2 := bs.Edit(8, second);
    WholeByteStored(before, mid, 1, first);
    WholeByteStored(mid, bs.stream[..], 2, second);
    OtherByteStored(mid, bs.stream[..], 2, second, 1);
    bitsWritten := w1 + w2;
  }

  lemma WholeByteStored(before: seq<bv8>, after: seq<bv8>, i: nat, val: bv8)
    requires i < |before| && Stored(before, after, 8 * i, 8, val)
    ensures after[i] == val
  {
    hide Bit, LsbBit;
    forall k | 0 <= k < 8
      ensures Bit(after[i], k) == Bit(val, k)
    {
      ByteOfBuffer(after, i, k);
      assert LsbBit(after, 8 * i + k) == Bit(val, 8 * i + k - 8 * i);
    }
    ByteExtensionality(after[i], val);
  }

  lemma OtherByteStored(before: seq<bv8>, after: seq<bv8>, i: nat, val: bv8, m: nat)
    requires i < |before| && m < |before| && m != i && Stored(before, after, 8 * i, 8, val)
    ensures after[m] == before[m]
  {
    hide Bit, LsbBit;
    forall k | 0 <= k < 8
      ensures Bit(after[m], k) == Bit(before[m], k)
    {
      ByteOfBuffer(after, m, k);
      ByteOfBuffer(before, m, k);
      assert LsbBit(after, 8 * m + k) == LsbBit(before, 8 * m + k);
    }
    ByteExtensionality(after[m], before[m]);
  }

  /** A seek back over bits just written lands where they start. */
  lemma BackInside(p: nat, length: nat, n: nat)
    requires p + n <= length < 0x8000_0000
    ensures WrappedSeek(p + n, length, n, -1) == p
  {
  }

  lemma ReadsWhatWasWritten(before: seq<bool>, p: nat, n: nat, bits: seq<bool>, contents: seq<bool>, got: seq<bool>,
                            fill: seq<bool>)
    requires p + n <= |before| && n <= |bits| && contents == Overwrite(before, p, bits[..n])
    requires got == ReadBits(contents, p, n) + fill
    ensures |contents| == |before| && |got| >= n && got[..n] == bits[..n]
    ensures forall j | 0 <= j < |before| && !(p <= j < p + n) :: contents[j] == before[j]
  {
    assert contents[p..p + n] == bits[..n];
  }

  /** Writing n bits that fit, seeking back and reading delivers the same bits and leaves all others alone. */
  method WriteThenRead(bs: Bitstream, n: nat, val: array<bv8>, res: array<bv8>)
    requires bs.Valid() && n <= bs.Rem()
    requires (n + 7) / 8 <= val.Length && (n + 7) / 8 <= res.Length
    requires val != bs.stream && res != bs.stream && res != val
    modifies bs, bs.stream, res
    ensures bs.Valid() && bs.Pos() == old(bs.Pos()) + n
    ensures BitsOf(res[..(n + 7) / 8])[..n] == old(BitsOf(val[..]))[..n]
    ensures var before := old(bs.Contents());
            |bs.Contents()| == |before|
            && forall j | 0 <= j < |before| && !(old(bs.Pos()) <= j < old(bs.Pos()) + n) :: bs.Contents()[j] == before[j]
  {
    hide LsbBit, BitsOf, StaysInside, Overwrite, ReadBits, WrappedSeek, Zeros;
    ghost var bits, before, p := BitsOf(val[..]), bs.Contents(), bs.Pos();
    var written, inside := bs.EditN(n, val);
    BackInside(p, 8 * bs.maxLen, n);
    var _ := bs.SeekG(n, -1);
    ghost var contents := bs.Contents();
    var read := bs.NextN(n, res);
    assert bs.Contents() == contents;
    ReadsWhatWasWritten(before, p, n, bits, contents, BitsOf(res[..(n + 7) / 8]), Zeros(8 * ((n + 7) / 8) - read));
  }
}
