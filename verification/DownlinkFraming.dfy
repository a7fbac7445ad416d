/** Downlink framing (src/fsw/FCCode/DownlinkProducer.cpp): how the bits of a telemetry payload are cut into
    560-bit packets, each led by one header bit, and what the producer writes into its snapshot buffer. */
module DownlinkFraming {
  import opened BitArray
  import opened Remainders

  const PACKET_BITS: nat := 560

  /** The producer finds the byte of a header bit by dividing the bit offset by 70. Dividing by 8 was meant. */
  const HEADER_DIVISOR: nat := 70
  const INTENDED_DIVISOR: nat := 8

  /** The frame the ground expects: packets of a header bit and up to 559 payload bits. */
  function Packets(header: bool, payload: seq<bool>): (frame: seq<bool>)
    ensures |frame| == |payload| + Headers(|payload|)
    decreases |payload|
  {
    if |payload| <= 559 then [header] + payload
    else [header] + payload[..559] + Packets(false, payload[559..])
  }

  /** The header bit is 1 on the first packet of a frame and 0 on every later one. */
  function Frame(payload: seq<bool>): (frame: seq<bool>)
    ensures |frame| == |payload| + Headers(|payload|)
  {
    Packets(true, payload)
  }

  /** What the ground does with a frame: drop the first bit of every 560. */
  function Deframe(frame: seq<bool>): seq<bool>
    decreases |frame|
  {
    if frame == [] then []
    else if |frame| <= PACKET_BITS then frame[1..]
    else frame[1..PACKET_BITS] + Deframe(frame[PACKET_BITS..])
  }

  /** Number of header bits in a frame that carries n payload bits. */
  function Headers(n: nat): (h: nat)
    ensures h >= 1
    ensures 559 * (h - 1) <= n <= 559 * h
  {
    if n == 0 then 1 else (n + 558) / 559
  }

  lemma {:induction false} DeframePackets(header: bool, payload: seq<bool>)
    ensures Deframe(Packets(header, payload)) == payload
    decreases |payload|
  {
    var frame := Packets(header, payload);
    if |payload| <= 559 {
      assert frame[1..] == payload;
    } else {
      DeframePackets(false, payload[559..]);
      assert frame[1..PACKET_BITS] == payload[..559];
      assert frame[PACKET_BITS..] == Packets(false, payload[559..]);
      assert payload[..559] + payload[559..] == payload;
    }
  }

  /** Framing loses nothing. */
  lemma DeframeFrame(payload: seq<bool>)
    ensures Deframe(Frame(payload)) == payload
  {
    DeframePackets(true, payload);
  }

  /** Where the bits of a frame come from. */
  lemma {:induction false} PacketsAt(header: bool, payload: seq<bool>, j: nat)
    requires j < |Packets(header, payload)|
    ensures j % 560 != 0 ==> j - j / 560 - 1 < |payload|
    ensures Packets(header, payload)[j]
         == if j == 0 then header else if j % 560 == 0 then false else payload[j - j / 560 - 1]
    decreases |payload|
  {
    if |payload| > 559 {
      if j >= 560 {
        PacketsAt(false, payload[559..], j - 560);
        assert j / 560 == (j - 560) / 560 + 1;
      }
    }
  }

  lemma FrameAt(payload: seq<bool>, j: nat)
    requires j < |Frame(payload)|
    ensures j % 560 != 0 ==> j - j / 560 - 1 < |payload|
    ensures Frame(payload)[j] == if j == 0 then true else if j % 560 == 0 then false else payload[j - j / 560 - 1]
  {
    PacketsAt(true, payload, j);
  }

  /** Where payload bit k stands in the frame. */
  function FrameIndex(k: nat): nat {
    k + k / 559 + 1
  }

  lemma FrameIndexInverse(k: nat)
    ensures var j := FrameIndex(k); j % 560 != 0 && j / 560 == k / 559 && j - j / 560 - 1 == k
  {
    var a, b := k / 559, k % 559;
    assert k + a + 1 == 560 * a + (b + 1);
  }

  /** That is where it stands, and it is no header bit. */
  lemma FrameIndexAt(payload: seq<bool>, k: nat)
    requires k < |payload|
    ensures var j := FrameIndex(k);
            j < |Frame(payload)| && j % 560 != 0 && j - j / 560 - 1 == k && Frame(payload)[j] == payload[k]
  {
    hide Packets, Frame;
    FrameIndexInverse(k);
    assert k / 559 + 1 <= Headers(|payload|);
    FrameAt(payload, FrameIndex(k));
  }

  /** A field of at most 559 bits, anywhere in a payload, lies in one packet of the frame or in two neighbouring ones; the
      header bit between them is the only bit that comes in between. */
  lemma FieldSpansTwoPackets(before: seq<bool>, field: seq<bool>, after: seq<bool>)
    requires 0 < |field| <= 559
    ensures var payload, first, last := before + field + after, FrameIndex(|before|), FrameIndex(|before| + |field| - 1);
            && last < |Frame(payload)| && Frame(payload)[first] == field[0] && Frame(payload)[last] == field[|field| - 1]
            && first / 560 <= last / 560 <= first / 560 + 1
            && last - first == |field| - 1 + (last / 560 - first / 560)
  {
    var payload := before + field + after;
    hide Frame;
    FrameIndexAt(payload, |before|);
    FrameIndexAt(payload, |before| + |field| - 1);
    FrameIndexInverse(|before|);
    FrameIndexInverse(|before| + |field| - 1);
  }

  /** Distance between the bits that the header writes of successive packets clear. */
  function Spacing(divisor: nat): nat
    requires divisor == HEADER_DIVISOR || divisor == INTENDED_DIVISOR
  {
    if divisor == HEADER_DIVISOR then 64 else 560
  }

  /** Bit j of the buffer after the payload was written, given the bits the buffer held before:
      each later packet clears one bit, wherever the divisor puts it. */
  function WrittenBit(divisor: nat, stale: seq<bv8>, payload: seq<bool>, j: nat): bool
    requires divisor == HEADER_DIVISOR || divisor == INTENDED_DIVISOR
    requires j < 8 * |stale|
  {
    var c := Spacing(divisor);
    if j == 0 then true
    else if j % c == 0 && j / c < Headers(|payload|) then false
    else if j % 560 == 0 || j >= |payload| + Headers(|payload|) then MsbBit(stale, j)
    else payload[j - j / 560 - 1]
  }

  ghost predicate Written(divisor: nat, stale: seq<bv8>, payload: seq<bool>, buffer: seq<bv8>)
    requires divisor == HEADER_DIVISOR || divisor == INTENDED_DIVISOR
  {
    && |buffer| == |stale|
    && forall j {:trigger MsbBit(buffer, j)} | 0 <= j < 8 * |buffer| ::
         MsbBit(buffer, j) == WrittenBit(divisor, stale, payload, j)
  }

  /** The same, for the bits of the frame alone. */
  ghost predicate FrameWritten(divisor: nat, stale: seq<bv8>, payload: seq<bool>, buffer: seq<bv8>)
    requires divisor == HEADER_DIVISOR || divisor == INTENDED_DIVISOR
  {
    && |Frame(payload)| <= 8 * |buffer| && |buffer| == |stale|
    && forall j {:trigger MsbBit(buffer, j)} | 0 <= j < |Frame(payload)| ::
         MsbBit(buffer, j) == WrittenBit(divisor, stale, payload, j)
  }

  /** The first bits of a buffer. */
  function FirstBits(buffer: seq<bv8>, n: nat): (bits: seq<bool>)
    requires n <= 8 * |buffer|
    ensures |bits| == n && forall j | 0 <= j < n :: bits[j] == MsbBit(buffer, j)
  {
    seq(n, j requires 0 <= j < n => MsbBit(buffer, j))
  }

  /** Appending bits to a packet that has room for them. */
  lemma WrittenMore(divisor: nat, stale: seq<bv8>, payload: seq<bool>, more: seq<bool>, before: seq<bv8>, after: seq<bv8>)
    requires divisor == HEADER_DIVISOR || divisor == INTENDED_DIVISOR
    requires Written(divisor, stale, payload, before)
    requires Headers(|payload| + |more|) == Headers(|payload|)
    requires |after| == |before|
    requires var o := |payload| + Headers(|payload|);
             forall j {:trigger MsbBit(after, j)} | 0 <= j < 8 * |before| ::
               MsbBit(after, j) == if o <= j < o + |more| then more[j - o] else MsbBit(before, j)
    ensures Written(divisor, stale, payload + more, after)
  {
    hide MsbBit;
    var h := Headers(|payload|);
    var o := |payload| + h;
    forall j {:trigger MsbBit(after, j)} | 0 <= j < 8 * |after|
      ensures MsbBit(after, j) == WrittenBit(divisor, stale, payload + more, j)
    {
      if o <= j < o + |more| {
        assert 560 * (h - 1) < j < 560 * h;
        assert j / 560 == h - 1;
      }
    }
  }

  /** Starting the next packet of a frame whose last packet is full. */
  lemma WrittenNextPacket(divisor: nat, stale: seq<bv8>, payload: seq<bool>, more: seq<bool>, before: seq<bv8>, after: seq<bv8>)
    requires divisor == HEADER_DIVISOR || divisor == INTENDED_DIVISOR
    requires Written(divisor, stale, payload, before)
    requires |payload| == 559 * Headers(|payload|) && 0 < |more| <= 559
    requires |after| == |before|
    requires var h := Headers(|payload|);
             forall j {:trigger MsbBit(after, j)} | 0 <= j < 8 * |before| ::
               MsbBit(after, j) == if 560 * h + 1 <= j < 560 * h + 1 + |more| then more[j - (560 * h + 1)]
                                   else if j == Spacing(divisor) * h then false
                                   else MsbBit(before, j)
    ensures Written(divisor, stale, payload + more, after)
  {
    hide MsbBit;
    var h := Headers(|payload|);
    var o := 560 * h;
    assert Headers(|payload| + |more|) == h + 1;
    forall j {:trigger MsbBit(after, j)} | 0 <= j < 8 * |after|
      ensures MsbBit(after, j) == WrittenBit(divisor, stale, payload + more, j)
    {
      if o + 1 <= j < o + 1 + |more| {
        assert j / 560 == h;
      }
    }
  }

  /** With the intended divisor the buffer holds exactly the frame. */
  lemma IntendedDivisorFrames(stale: seq<bv8>, payload: seq<bool>, buffer: seq<bv8>)
    requires FrameWritten(INTENDED_DIVISOR, stale, payload, buffer)
    ensures FirstBits(buffer, |Frame(payload)|) == Frame(payload)
  {
    hide MsbBit;
    forall j | 0 <= j < |Frame(payload)|
      ensures MsbBit(buffer, j) == Frame(payload)[j]
    {
      FrameAt(payload, j);
    }
  }

  /** Packet k of the frame comes out right under the divisor of the source: the bit 64k it clears by mistake carries
      no information, and its own header bit, which it leaves alone, happens to be clear. */
  predicate HeaderHarmless(stale: seq<bv8>, payload: seq<bool>, k: nat)
    requires 1 <= k < Headers(|payload|)
    requires |payload| + Headers(|payload|) <= 8 * |stale|
  {
    && (k % 35 == 0 || !payload[64 * k - 64 * k / 560 - 1])
    && ((k % 4 == 0 && 35 * (k / 4) < Headers(|payload|)) || !MsbBit(stale, 560 * k))
  }

  /** The divisor of the source yields the frame exactly when every packet after the first is harmless in this sense. */
  lemma SourceDivisorFramesIff(stale: seq<bv8>, payload: seq<bool>, buffer: seq<bv8>)
    requires FrameWritten(HEADER_DIVISOR, stale, payload, buffer)
    ensures FirstBits(buffer, |Frame(payload)|) == Frame(payload)
       <==> forall k {:trigger HeaderHarmless(stale, payload, k)} | 1 <= k < Headers(|payload|) ::
              HeaderHarmless(stale, payload, k)
  {
    hide MsbBit;
    var frame, bits := Frame(payload), FirstBits(buffer, |Frame(payload)|);
    if forall k {:trigger HeaderHarmless(stale, payload, k)} | 1 <= k < Headers(|payload|) ::
      HeaderHarmless(stale, payload, k) {
      forall j | 0 <= j < |frame|
        ensures bits[j] == frame[j]
      {
        HarmlessBit(stale, payload, j);
      }
    }
    if bits == frame {
      forall k | 1 <= k < Headers(|payload|)
        ensures HeaderHarmless(stale, payload, k)
      {
        assert bits[64 * k] == frame[64 * k] && bits[560 * k] == frame[560 * k];
        RightBitsAreHarmless(stale, payload, k);
      }
    }
  }

  lemma MultiplesOf64(k: nat)
    ensures (64 * k) % 560 == 0 <==> k % 35 == 0
  {
    if k % 35 == 0 {
      ModUnique(64 * k, 4 * (k / 35), 560, 0);
    } else if (64 * k) % 560 == 0 {
      Factor35(k, 64 * k / 560);
    }
  }

  lemma Factor35(k: nat, t: nat)
    requires 64 * k == 560 * t
    ensures k % 35 == 0
  {
    ModUnique(k, 9 * t - k, 35, 0);
  }

  lemma MultiplesOf560(k: nat)
    ensures (560 * k) % 64 == 0 <==> k % 4 == 0
    ensures k % 4 == 0 ==> 560 * k / 64 == 35 * (k / 4)
  {
    if k % 4 == 0 {
      ModUnique(560 * k, 35 * (k / 4), 64, 0);
    } else if (560 * k) % 64 == 0 {
      Factor4(k, 560 * k / 64);
    }
  }

  lemma Factor4(k: nat, t: nat)
    requires 560 * k == 64 * t
    ensures k % 4 == 0
  {
    ModUnique(k, 9 * k - t, 4, 0);
  }

  /** Which multiples of 64 and of 560 coincide. */
  lemma ClearedBits(k: nat)
    ensures (64 * k) % 560 == 0 <==> k % 35 == 0
    ensures (560 * k) % 64 == 0 <==> k % 4 == 0
    ensures k % 4 == 0 ==> 560 * k / 64 == 35 * (k / 4)
  {
    MultiplesOf64(k);
    MultiplesOf560(k);
  }

  lemma HarmlessBit(stale: seq<bv8>, payload: seq<bool>, j: nat)
    requires |Frame(payload)| <= 8 * |stale| && j < |Frame(payload)|
    requires forall k {:trigger HeaderHarmless(stale, payload, k)} | 1 <= k < Headers(|payload|) ::
               HeaderHarmless(stale, payload, k)
    ensures WrittenBit(HEADER_DIVISOR, stale, payload, j) == Frame(payload)[j]
  {
    hide MsbBit, Packets, Frame;
    FrameAt(payload, j);
    if j != 0 && j % 64 == 0 && j / 64 < Headers(|payload|) {
      var k := j / 64;
      assert j == 64 * k;
      assert HeaderHarmless(stale, payload, k);
      ClearedBits(k);
    } else if j != 0 && j % 560 == 0 {
      var k := j / 560;
      assert j == 560 * k;
      assert HeaderHarmless(stale, payload, k);
      ClearedBits(k);
    }
  }

  lemma RightBitsAreHarmless(stale: seq<bv8>, payload: seq<bool>, k: nat)
    requires 1 <= k < Headers(|payload|) && |Frame(payload)| <= 8 * |stale|
    requires WrittenBit(HEADER_DIVISOR, stale, payload, 64 * k) == Frame(payload)[64 * k]
    requires WrittenBit(HEADER_DIVISOR, stale, payload, 560 * k) == Frame(payload)[560 * k]
    ensures HeaderHarmless(stale, payload, k)
  {
    hide MsbBit, Packets, Frame;
    ClearedBits(k);
    assert k % 35 == 0 || !payload[64 * k - 64 * k / 560 - 1] by {
      hide HeaderHarmless;
      FrameAt(payload, 64 * k);
      assert 64 * k / 64 == k;
    }
    assert (k % 4 == 0 && 35 * (k / 4) < Headers(|payload|)) || !MsbBit(stale, 560 * k) by {
      hide HeaderHarmless;
      FrameAt(payload, 560 * k);
    }
  }

  /** Bit m of what the ground takes from a frame of the right length. */
  lemma {:induction false} DeframeAt(frame: seq<bool>, n: nat, m: nat)
    requires |frame| == n + Headers(n) && m < n
    ensures FrameIndex(m) < |frame|
    ensures |Deframe(frame)| == n && Deframe(frame)[m] == frame[FrameIndex(m)]
    decreases n
  {
    DeframeLength(frame, n);
    if m >= 559 {
      DeframeAt(frame[PACKET_BITS..], n - 559, m - 559);
      assert m / 559 == (m - 559) / 559 + 1;
    }
  }

  lemma {:induction false} DeframeLength(frame: seq<bool>, n: nat)
    requires |frame| == n + Headers(n)
    ensures |Deframe(frame)| == n
    decreases n
  {
    if n > 559 {
      DeframeLength(frame[PACKET_BITS..], n - 559);
    }
  }

  /** With the intended divisor the ground gets the payload. */
  lemma IntendedDivisorDelivers(stale: seq<bv8>, payload: seq<bool>, buffer: seq<bv8>)
    requires FrameWritten(INTENDED_DIVISOR, stale, payload, buffer)
    ensures Deframe(FirstBits(buffer, |Frame(payload)|)) == payload
  {
    hide Deframe, Frame;
    IntendedDivisorFrames(stale, payload, buffer);
    DeframeFrame(payload);
  }

  /** With the divisor of the source it does exactly when no payload bit is set where a packet's header write clears it by
      mistake: at frame bit 64k for packet k, unless 560 divides 64k. */
  lemma SourceDivisorDeliversIff(stale: seq<bv8>, payload: seq<bool>, buffer: seq<bv8>)
    requires FrameWritten(HEADER_DIVISOR, stale, payload, buffer)
    ensures Deframe(FirstBits(buffer, |Frame(payload)|)) == payload
       <==> forall k {:trigger Damages(payload, k)} | 1 <= k < Headers(|payload|) :: !Damages(payload, k)
  {
    hide MsbBit, Deframe, Packets, FirstBits, Damages;
    var bits := FirstBits(buffer, |Frame(payload)|);
    var got := Deframe(bits);
    DeframeLength(bits, |payload|);
    forall m | 0 <= m < |payload|
      ensures got[m] == (payload[m] && !ClearedAt(payload, m))
    {
      DeframeAt(bits, |payload|, m);
      DeliveredBit(stale, payload, m);
    }
    if got == payload {
      forall k | 1 <= k < Headers(|payload|)
        ensures !Damages(payload, k)
      {
        if Damages(payload, k) {
          DamageShows(payload, k);
        }
      }
    }
    if forall k {:trigger Damages(payload, k)} | 1 <= k < Headers(|payload|) :: !Damages(payload, k) {
      forall m | 0 <= m < |payload|
        ensures got[m] == payload[m]
      {
        DamageCauses(payload, m);
      }
    }
  }

  /** Payload bit m stands where the header write of a later packet clears it. */
  predicate ClearedAt(payload: seq<bool>, m: nat)
    requires m < |payload|
  {
    var j := FrameIndex(m);
    j % 64 == 0 && j / 64 < Headers(|payload|)
  }

  /** The header write of packet k clears a set payload bit. */
  predicate Damages(payload: seq<bool>, k: nat)
    requires 1 <= k < Headers(|payload|)
  {
    k % 35 != 0 && payload[64 * k - 64 * k / 560 - 1]
  }

  lemma DeliveredBit(stale: seq<bv8>, payload: seq<bool>, m: nat)
    requires m < |payload| && |Frame(payload)| <= 8 * |stale|
    ensures var j := FrameIndex(m);
            j < |Frame(payload)| && WrittenBit(HEADER_DIVISOR, stale, payload, j) == (payload[m] && !ClearedAt(payload, m))
  {
    hide MsbBit, Packets;
    FrameIndexInverse(m);
    assert m / 559 + 1 <= Headers(|payload|);
  }

  lemma DamageShows(payload: seq<bool>, k: nat)
    requires 1 <= k < Headers(|payload|) && Damages(payload, k)
    ensures var m := 64 * k - 64 * k / 560 - 1; 0 <= m < |payload| && payload[m] && ClearedAt(payload, m)
  {
    MultiplesOf64(k);
    var m := 64 * k - 64 * k / 560 - 1;
    var q, r := 64 * k / 560, 64 * k % 560;
    assert 64 * k == 560 * q + r && r > 0 && m == 559 * q + (r - 1);
    assert m / 559 == q;
  }

  lemma DamageCauses(payload: seq<bool>, m: nat)
    requires m < |payload|
    requires forall k {:trigger Damages(payload, k)} | 1 <= k < Headers(|payload|) :: !Damages(payload, k)
    ensures !(payload[m] && ClearedAt(payload, m))
  {
    FrameIndexInverse(m);
    var j := FrameIndex(m);
    if ClearedAt(payload, m) {
      var k := j / 64;
      assert j == 64 * k;
      assert !Damages(payload, k);
      MultiplesOf64(k);
    }
  }

  /** A payload that fits one packet is never damaged, whatever the buffer held before. */
  lemma SinglePacketIsRight(stale: seq<bv8>, payload: seq<bool>, buffer: seq<bv8>)
    requires FrameWritten(HEADER_DIVISOR, stale, payload, buffer) && |payload| <= 559
    ensures Deframe(FirstBits(buffer, |Frame(payload)|)) == payload
  {
    hide Deframe, FirstBits, Packets;
    SourceDivisorDeliversIff(stale, payload, buffer);
  }

  /** The smallest damage: 560 set bits need a second packet, whose header write clears payload bit 63. */
  lemma SourceDivisorDamages(stale: seq<bv8>, buffer: seq<bv8>)
    requires |buffer| >= 71
    requires FrameWritten(HEADER_DIVISOR, stale, seq(560, _ => true), buffer)
    ensures var payload := seq(560, _ => true);
            Deframe(FirstBits(buffer, 562))[63] == false && payload[63] == true
  {
    var payload := seq(560, _ => true);
    var bits := FirstBits(buffer, 562);
    assert bits[64] == MsbBit(buffer, 64) == WrittenBit(HEADER_DIVISOR, stale, payload, 64);
    assert Deframe(bits)[63] == bits[1..560][63];
  }

  /** Bytes that compute_downlink_size reserves for n bits of cycle count and flows. */
  function ComputedSize(n: nat): nat {
    (n + (n + PACKET_BITS - 1) / PACKET_BITS + 7) / 8
  }

  /** Bytes that the framing loop fills for n payload bits. */
  function NeededSize(n: nat): nat {
    (n + Headers(n) + 7) / 8
  }

  /** Bits by which n payload bits overrun the 559 a packet that the formula's count of packets leaves room for. */
  function Overrun(n: nat): int {
    var m := (n + 559) / 560;
    n - 559 * m
  }

  /** Packets that the framing loop needs beyond the formula's count. */
  function ExtraPackets(n: nat): nat {
    if Overrun(n) <= 0 then 0 else (Overrun(n) + 558) / 559
  }

  lemma HeadersByFormula(n: nat)
    requires n > 0
    ensures Headers(n) == (n + 559) / 560 + ExtraPackets(n)
  {
    var m, v := (n + 559) / 560, Overrun(n);
    assert n == 559 * m + v && -559 < v;
    if v > 0 {
      assert (n + 558) / 559 == m + (v + 558) / 559;
    }
  }

  /** The formula divides by 560 where the loop fits 559 bits a packet. It is exact when the bits left in its last byte hold
      the headers of the extra packets, and otherwise too small; up to 559 packets by one byte. */
  lemma ComputedSizeExactIff(n: nat)
    requires n > 0
    ensures ComputedSize(n) == NeededSize(n) <==> ExtraPackets(n) <= (-Overrun(n)) % 8
    ensures ComputedSize(n) <= NeededSize(n)
    ensures n <= 559 * 560 ==> NeededSize(n) <= ComputedSize(n) + 1
  {
    var m, v, x := (n + 559) / 560, Overrun(n), ExtraPackets(n);
    HeadersByFormula(n);
    assert n + m == 8 * (70 * m) + v;
    hide Headers, ExtraPackets;
    assert ComputedSize(n) == 70 * m + (v + 7) / 8;
    assert NeededSize(n) == 70 * m + (v + x + 7) / 8;
  }

  /** The first payload for which the reserved size is too small is 4480 bits. */
  lemma ComputedSizeBelow4480(n: nat)
    ensures 0 < n < 4480 ==> ComputedSize(n) == NeededSize(n)
    ensures n == 4480 ==> ComputedSize(n) + 1 == NeededSize(n)
  {
    if 0 < n <= 4480 {
      ComputedSizeExactIff(n);
    }
  }

  /** The final zero fill touches a byte past a byte-aligned frame. When all flows are active, the buffer reserved for them
      covers that byte exactly when the formula is exact and the frame does not end on a byte boundary. */
  lemma ReservedBufferCoversFillIff(n: nat)
    requires n > 0
    ensures (n + Headers(n)) / 8 < ComputedSize(n)
       <==> (n + Headers(n)) % 8 != 0 && ExtraPackets(n) <= (-Overrun(n)) % 8
  {
    ComputedSizeExactIff(n);
    hide ExtraPackets, Overrun, Headers;
  }

  /** The largest payload whose frame, headers included, has no more than some number of bits. */
  function PayloadWithin(bits: nat): int {
    bits - (bits + 559) / 560
  }

  lemma FrameWithinIff(n: nat, bits: nat)
    requires bits > 0
    ensures n + Headers(n) <= bits <==> n <= PayloadWithin(bits)
  {
    var c, h := (bits + 559) / 560, Headers(n);
    assert 560 * (c - 1) < bits <= 560 * c;
    if h >= c {
      assert n + h <= bits ==> n <= bits - c;
    } else {
      assert n <= 559 * (c - 1) <= bits - c;
    }
  }

  /** A buffer takes a frame and the zero fill behind it exactly for payloads up to this size. */
  function Capacity(bytes: nat): int {
    if bytes == 0 then -1 else PayloadWithin(8 * bytes - 1)
  }

  lemma CapacityIff(n: nat, bytes: nat)
    ensures (n + Headers(n)) / 8 < bytes <==> n <= Capacity(bytes)
  {
    hide PayloadWithin, Headers;
    if bytes > 0 {
      FrameWithinIff(n, 8 * bytes - 1);
    }
  }

  /** The buffer reserved for all flows takes every frame of the active ones as soon as the others have more bits than the
      formula misses packets. */
  lemma InactiveBitsMakeRoom(n: nat, all: nat)
    requires n + ExtraPackets(all) < all
    ensures n <= Capacity(ComputedSize(all))
  {
    HeadersByFormula(all);
    LongerPayloadsLongerFrames(n, all - ExtraPackets(all) - 1);
    FewerHeaders(all - ExtraPackets(all) - 1, all);
    hide Headers, ExtraPackets;
    CapacityIff(n, ComputedSize(all));
  }

  lemma FewerHeaders(n: nat, m: nat)
    requires n <= m
    ensures Headers(n) <= Headers(m)
  {
  }

  lemma LongerPayloadsLongerFrames(n: nat, m: nat)
    requires n <= m
    ensures n + Headers(n) <= m + Headers(m)
  {
  }

  /** The two offsets of the framing loop: in the current packet, and in the frame, where it is exactly the length
      of the frame so far. */
  ghost predicate OffsetsOf(payload: seq<bool>, packetOffset: nat, downlinkFrameOffset: nat) {
    && downlinkFrameOffset == |Frame(payload)|
    && packetOffset == downlinkFrameOffset - 560 * (Headers(|payload|) - 1)
  }

  lemma WrittenStart(divisor: nat, stale: seq<bv8>, buffer: seq<bv8>)
    requires divisor == HEADER_DIVISOR || divisor == INTENDED_DIVISOR
    requires |buffer| == |stale| > 0
    requires forall j {:trigger MsbBit(buffer, j)} | 0 <= j < 8 * |buffer| :: MsbBit(buffer, j) == (j == 0 || MsbBit(stale, j))
    ensures Written(divisor, stale, [], buffer) && OffsetsOf([], 1, 1)
  {
    hide MsbBit;
  }

  /** Where a frame ends after some more bits. */
  function EndAfter(fieldSize: nat, packetOffset: nat, downlinkFrameOffset: nat): nat {
    downlinkFrameOffset + fieldSize + if fieldSize + packetOffset > PACKET_BITS then 1 else 0
  }

  lemma EndAfterIs(payload: seq<bool>, more: seq<bool>, packetOffset: nat, downlinkFrameOffset: nat)
    requires OffsetsOf(payload, packetOffset, downlinkFrameOffset) && |more| <= 559
    ensures EndAfter(|more|, packetOffset, downlinkFrameOffset) == |Frame(payload + more)|
  {
    hide Packets;
  }

  /** add_bits_to_downlink_frame. The offsets are those of a frame that holds `payload` so far; when the bits do not fit the
      buffer they are written past its end. */
  method AddBitsToDownlinkFrame(divisor: nat, fieldBits: seq<bool>, snapshot: array<bv8>, packetOffset: nat,
                                downlinkFrameOffset: nat, ghost stale: seq<bv8>, ghost payload: seq<bool>)
      returns (inside: bool, packetOffset': nat, downlinkFrameOffset': nat)
    requires divisor == HEADER_DIVISOR || divisor == INTENDED_DIVISOR
    requires |fieldBits| <= 559
    requires OffsetsOf(payload, packetOffset, downlinkFrameOffset)
    requires Written(divisor, stale, payload, snapshot[..])
    modifies snapshot
    ensures inside <==> |Frame(payload + fieldBits)| <= 8 * snapshot.Length
    ensures inside ==> OffsetsOf(payload + fieldBits, packetOffset', downlinkFrameOffset')
    ensures inside ==> Written(divisor, stale, payload + fieldBits, snapshot[..])
  {
    hide MsbBit, Frame, Written, OffsetsOf;
    EndAfterIs(payload, fieldBits, packetOffset, downlinkFrameOffset);
    if EndAfter(|fieldBits|, packetOffset, downlinkFrameOffset) > 8 * snapshot.Length {
      return false, packetOffset, downlinkFrameOffset;
    }
    packetOffset', downlinkFrameOffset' :=
      AddBits(divisor, fieldBits, snapshot, packetOffset, downlinkFrameOffset, stale, payload);
    inside := true;
  }

  method AddBits(divisor: nat, fieldBits: seq<bool>, snapshot: array<bv8>, packetOffset: nat,
                 downlinkFrameOffset: nat, ghost stale: seq<bv8>, ghost payload: seq<bool>)
      returns (packetOffset': nat, downlinkFrameOffset': nat)
    requires divisor == HEADER_DIVISOR || divisor == INTENDED_DIVISOR
    requires |fieldBits| <= 559
    requires OffsetsOf(payload, packetOffset, downlinkFrameOffset)
    requires |Frame(payload + fieldBits)| <= 8 * snapshot.Length
    requires Written(divisor, stale, payload, snapshot[..])
    modifies snapshot
    ensures OffsetsOf(payload + fieldBits, packetOffset', downlinkFrameOffset')
    ensures Written(divisor, stale, payload + fieldBits, snapshot[..])
  {
    hide MsbBit, Frame, Written;
    ghost var before, h := snapshot[..], Headers(|payload|);
    assert |before| == snapshot.Length;
    var fieldSize := |fieldBits|;
    var fieldOverflow := fieldSize + packetOffset - PACKET_BITS;
    if fieldOverflow <= 0 {
      ToString(fieldBits, snapshot, downlinkFrameOffset, 0, fieldSize);
      downlinkFrameOffset' := downlinkFrameOffset + fieldSize;
      packetOffset' := packetOffset + fieldSize;
      WrittenMore(divisor, stale, payload, fieldBits, before, snapshot[..]);
    } else {
      var x := fieldSize - fieldOverflow;
      ToString(fieldBits, snapshot, downlinkFrameOffset, 0, x);
      downlinkFrameOffset' := downlinkFrameOffset + x;
      ghost var full, mid := payload + fieldBits[..x], snapshot[..];
      WrittenMore(divisor, stale, payload, fieldBits[..x], before, mid);
      assert |full| == 559 * h && downlinkFrameOffset' == 560 * h;
      // Mark the header of the new packet.
      HeaderByte(divisor, h);
      PutMsbBit(snapshot, 8 * (downlinkFrameOffset' / divisor), false);
      downlinkFrameOffset' := downlinkFrameOffset' + 1;
      ToString(fieldBits, snapshot, downlinkFrameOffset', x, fieldSize);
      downlinkFrameOffset' := downlinkFrameOffset' + fieldOverflow;
      packetOffset' := 1 + fieldOverflow;
      WrittenNextPacket(divisor, stale, full, fieldBits[x..], mid, snapshot[..]);
      assert full + fieldBits[x..] == payload + fieldBits;
    }
  }

  lemma HeaderByte(divisor: nat, h: nat)
    requires divisor == HEADER_DIVISOR || divisor == INTENDED_DIVISOR
    ensures 8 * (560 * h / divisor) == Spacing(divisor) * h
  {
    if divisor == HEADER_DIVISOR {
      assert 560 * h / 70 == 8 * h;
    } else {
      assert 560 * h / 8 == 70 * h;
    }
  }
}
