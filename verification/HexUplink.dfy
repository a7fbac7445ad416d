/** The uplink packet as text: the ground's hex encoder (ptest/usb_session.py) and the debug console's decoder
    (src/common/debug_console.cpp). */
module HexUplink {

  const BUFFER := 300
  const NUL := '\0'

  newtype Byte = b: int | 0 <= b < 256

  const HEX_DIGITS := "0123456789abcdef"

  /** hex(byte)[2:]: one digit or two, without padding. */
  function Hex(b: Byte): (digits: string)
    ensures 1 <= |digits| <= 2
  {
    if b < 16 then [HEX_DIGITS[b as int]] else [HEX_DIGITS[b as int / 16], HEX_DIGITS[b as int % 16]]
  }

  /** One byte as text. */
  function Escape(b: Byte): (text: string)
    ensures |text| == 2 + |Hex(b)| && text[0] == '\\' && forall k | 0 <= k < |Hex(b)| :: text[2 + k] == Hex(b)[k]
  {
    "\\x" + Hex(b)
  }

  /** The packet as text. */
  function Encode(bytes: seq<Byte>): (text: string)
    ensures 3 * |bytes| <= |text| <= 4 * |bytes|
  {
    if bytes == [] then "" else Escape(bytes[0]) + Encode(bytes[1..])
  }

  /** The value of a hex digit. */
  function Digit(c: char): (v: nat)
    requires IsDigit(c)
    ensures v < 16
  {
    if '0' <= c <= '9' then (c - '0') as nat else if 'a' <= c <= 'f' then (c - 'a') as nat + 10 else (c - 'A') as nat + 10
  }

  predicate IsDigit(c: char) {
    '0' <= c <= '9' || 'a' <= c <= 'f' || 'A' <= c <= 'F'
  }

  /** strtol in base 16, of text that starts with a digit: the number the longest prefix of digits spells. */
  function Strtol(s: string): (v: nat) {
    Value(s, DigitCount(s))
  }

  function DigitCount(s: string): (n: nat)
    ensures n <= |s|
    ensures forall i | 0 <= i < n :: IsDigit(s[i])
    ensures n < |s| ==> !IsDigit(s[n])
  {
    if s == [] || !IsDigit(s[0]) then 0 else 1 + DigitCount(s[1..])
  }

  function Value(s: string, n: nat): nat
    requires n <= |s| && forall i | 0 <= i < n :: IsDigit(s[i])
  {
    if n == 0 then 0 else 16 * Value(s, n - 1) + Digit(s[n - 1])
  }

  /** The cast of a number to a character. */
  function Chr(v: nat): Byte {
    (v % 256) as Byte
  }

  /** The token buffer after clearing its first n characters and copying the digits of one byte. */
  function Fill(token: string, n: nat, digits: string): (filled: string)
    ensures |filled| == |token|
  {
    seq(|token|, k requires 0 <= k < |token| => if k < |digits| then digits[k] else if k < n then NUL else token[k])
  }

  function TokenAfter(stale: string, n: nat, bytes: seq<Byte>): (token: string)
    ensures |token| == |stale|
  {
    if bytes == [] then stale
    else Fill(TokenAfter(stale, n, bytes[..|bytes| - 1]), n, Hex(bytes[|bytes| - 1]))
  }

  /** What the decoder makes of an encoded packet, given what its token buffer held before. */
  function Decode(stale: string, n: nat, bytes: seq<Byte>): (data: seq<Byte>)
    ensures |data| == |bytes|
  {
    if bytes == [] then []
    else Decode(stale, n, bytes[..|bytes| - 1]) + [Chr(Strtol(TokenAfter(stale, n, bytes)))]
  }

  /** Where byte i starts in the text with its sentinel, and what stands there. */
  lemma {:induction false} EncodeAt(bytes: seq<Byte>, i: nat)
    requires i < |bytes|
    ensures var p, text, digits := |Encode(bytes[..i])|, Encode(bytes) + "\\x", Hex(bytes[i]);
            && p + 2 + |digits| == |Encode(bytes[..i + 1])| < |text|
            && (forall k | 0 <= k < |digits| :: text[p + 2 + k] == digits[k]) && text[p + 2 + |digits|] == '\\'
  {
    hide Hex, Escape;
    var tail, text := bytes[1..], Encode(bytes) + "\\x";
    assert text == Escape(bytes[0]) + (Encode(tail) + "\\x");
    assert bytes[..i + 1][1..] == tail[..i];
    if i > 0 {
      EncodeAt(tail, i - 1);
      assert bytes[..i][1..] == tail[..i - 1];
    }
  }

  lemma HexIsDigits(b: Byte)
    ensures var d := Hex(b);
            (forall i | 0 <= i < |d| :: IsDigit(d[i]) && d[i] != '\\') && Value(d, |d|) == b as int
    ensures (|Hex(b)| == 1 <==> b < 16) && forall i | 0 <= i < |Hex(b)| :: !('A' <= Hex(b)[i] <= 'F')
  {
    assert forall k | 0 <= k < 16 :: IsDigit(HEX_DIGITS[k]) && Digit(HEX_DIGITS[k]) == k;
    assert Value(Hex(b), 1) == Digit(Hex(b)[0]);
  }

  lemma {:induction false} ValueOfPrefix(s: string, t: string, n: nat)
    requires n <= |s| && n <= |t| && s[..n] == t[..n] && forall i | 0 <= i < n :: IsDigit(s[i])
    ensures (forall i | 0 <= i < n :: IsDigit(t[i])) && Value(s, n) == Value(t, n)
  {
    assert forall i | 0 <= i < n :: s[i] == s[..n][i] == t[i];
    if n > 0 {
      assert s[..n - 1] == s[..n][..n - 1] == t[..n - 1];
      ValueOfPrefix(s, t, n - 1);
    }
  }

  /** A token that holds the digits of a byte and then something that is no digit is read as that byte. */
  lemma StrtolReads(token: string, b: Byte)
    requires |Hex(b)| < |token| && token[..|Hex(b)|] == Hex(b) && !IsDigit(token[|Hex(b)|])
    ensures Strtol(token) == b as int
  {
    HexIsDigits(b);
    var d := |Hex(b)|;
    assert forall i | 0 <= i < d :: token[i] == token[..d][i];
    assert DigitCount(token) == d;
    hide Hex;
    ValueOfPrefix(Hex(b), token, d);
  }

  /** Clearing one character more than there are digits ends the token. */
  lemma FillEnds(token: string, n: nat, b: Byte)
    requires |Hex(b)| < n <= |token|
    ensures Strtol(Fill(token, n, Hex(b))) == b as int
  {
    hide Hex, Strtol;
    var filled := Fill(token, n, Hex(b));
    assert filled[..|Hex(b)|] == Hex(b) && filled[|Hex(b)|] == NUL;
    StrtolReads(filled, b);
  }

  lemma DecodeStep(stale: string, n: nat, bytes: seq<Byte>, i: nat)
    requires i < |bytes|
    ensures var before, after := bytes[..i], bytes[..i + 1];
            && TokenAfter(stale, n, after) == Fill(TokenAfter(stale, n, before), n, Hex(bytes[i]))
            && Decode(stale, n, after) == Decode(stale, n, before) + [Chr(Strtol(TokenAfter(stale, n, after)))]
  {
    hide Hex, Strtol, Fill;
    assert bytes[..i + 1][..i] == bytes[..i];
  }

  /** The decoder returns the packet whatever the token buffer held, if every byte has fewer digits than the packet bytes. */
  lemma {:induction false} DecodeIsRight(stale: string, n: nat, bytes: seq<Byte>)
    requires n <= |stale| && forall i | 0 <= i < |bytes| :: |Hex(bytes[i])| < n
    ensures Decode(stale, n, bytes) == bytes
  {
    if bytes != [] {
      DecodeIsRight(stale, n, bytes[..|bytes| - 1]);
      DecodeOneMore(stale, n, bytes);
    }
  }

  lemma DecodeOneMore(stale: string, n: nat, bytes: seq<Byte>)
    requires bytes != [] && |Hex(bytes[|bytes| - 1])| < n <= |stale|
    requires Decode(stale, n, bytes[..|bytes| - 1]) == bytes[..|bytes| - 1]
    ensures Decode(stale, n, bytes) == bytes
  {
    hide Hex, Strtol, Fill, TokenAfter, Encode;
    var k := |bytes| - 1;
    DecodeStep(stale, n, bytes, k);
    FillEnds(TokenAfter(stale, n, bytes[..k]), n, bytes[k]);
    assert bytes[..k + 1] == bytes;
    hide Decode;
    assert bytes == bytes[..k] + [bytes[k]];
  }

  /** Beyond the cleared part and two digits the token buffer is never written. */
  lemma {:induction false} StaleStays(stale: string, n: nat, bytes: seq<Byte>, k: nat)
    requires n <= k < |stale| && (bytes == [] || 2 <= k)
    ensures TokenAfter(stale, n, bytes)[k] == stale[k]
  {
    if bytes != [] {
      StaleStays(stale, n, bytes[..|bytes| - 1], k);
    }
  }

  /** One byte decoded with a stale digit right behind its own. */
  lemma StaleDigitSpoils(token: string, b: Byte)
    requires |token| > |Hex(b)| + 1 && token[..|Hex(b)|] == Hex(b)
    requires token[|Hex(b)|] == (if b == 0 then '1' else '0') && token[|Hex(b)| + 1] == NUL
    ensures Chr(Strtol(token)) != b
  {
    HexIsDigits(b);
    hide Hex, DigitCount;
    var d := |Hex(b)|;
    assert forall i | 0 <= i < d :: token[i] == token[..d][i];
    assert IsDigit(token[d]) && !IsDigit(token[d + 1]);
    assert DigitCount(token) == d + 1;
    ValueOfPrefix(Hex(b), token, d);
    assert Value(token, d + 1) == 16 * Value(token, d) + Digit(token[d]);
    hide Value;
    NotTheSame(b, Digit(token[d]));
  }

  lemma NotTheSame(b: Byte, v: nat)
    requires v == if b == 0 then 1 else 0
    ensures Chr(16 * b as nat + v) != b
  {
  }

  /** If a byte has as many digits as the packet has bytes, some old contents of the token buffer make the decoder wrong. */
  lemma DecodeCanBeWrong(bytes: seq<Byte>, i: nat) returns (stale: string)
    requires i < |bytes| && |Hex(bytes[i])| >= |bytes|
    ensures |stale| == |Encode(bytes)| && Decode(stale, |bytes|, bytes) != bytes
  {
    hide Encode, Hex, Strtol, Fill, TokenAfter, Decode;
    var n, d := |bytes|, |Hex(bytes[i])|;
    var c := if bytes[i] == 0 then '1' else '0';
    stale := seq(|Encode(bytes)|, k => if k == d then c else NUL);
    LongEnough(bytes, i);
    var before := TokenAfter(stale, n, bytes[..i]);
    StaleStays(stale, n, bytes[..i], d);
    StaleStays(stale, n, bytes[..i], d + 1);
    FilledWithStale(before, n, bytes[i]);
    StaleDigitSpoils(Fill(before, n, Hex(bytes[i])), bytes[i]);
    DecodeAt(stale, n, bytes, i);
  }

  lemma FilledWithStale(token: string, n: nat, b: Byte)
    requires n <= |Hex(b)| && |Hex(b)| + 1 < |token|
    ensures var f, d := Fill(token, n, Hex(b)), |Hex(b)|;
            f[..d] == Hex(b) && f[d] == token[d] && f[d + 1] == token[d + 1]
  {
    hide Hex;
  }

  lemma LongEnough(bytes: seq<Byte>, i: nat)
    requires i < |bytes|
    ensures |Encode(bytes)| >= |Hex(bytes[i])| + 2
  {
    EncodeAt(bytes, i);
  }

  /** Byte i of the result depends on the token after the bytes before it. */
  lemma {:induction false} DecodeAt(stale: string, n: nat, bytes: seq<Byte>, i: nat)
    requires i < |bytes|
    ensures Decode(stale, n, bytes)[i] == Chr(Strtol(Fill(TokenAfter(stale, n, bytes[..i]), n, Hex(bytes[i]))))
  {
    hide Hex, Strtol, Fill;
    var k := |bytes| - 1;
    if i < k {
      DecodeAt(stale, n, bytes[..k], i);
      assert bytes[..k][..i] == bytes[..i];
    }
  }

  /** The decoder inverts the encoder, whatever its token buffer held, exactly when every byte has fewer digits than the packet
      has bytes. */
  lemma DecodeInvertsEncodeIff(bytes: seq<Byte>)
    ensures (forall stale: string {:trigger Decode(stale, |bytes|, bytes)} | |stale| == |Encode(bytes)| ::
               Decode(stale, |bytes|, bytes) == bytes)
            <==> forall i | 0 <= i < |bytes| :: |Hex(bytes[i])| < |bytes|
  {
    hide Hex, Encode, Decode;
    if i :| 0 <= i < |bytes| && |Hex(bytes[i])| >= |bytes| {
      var stale := DecodeCanBeWrong(bytes, i);
    } else {
      forall stale: string | |stale| == |Encode(bytes)|
        ensures Decode(stale, |bytes|, bytes) == bytes
      {
        DecodeIsRight(stale, |bytes|, bytes);
      }
    }
  }

  /** So it does for every packet of three bytes or more, of any length the buffer holds, and for some shorter ones. */
  lemma LongPacketsDecode(stale: string, bytes: seq<Byte>)
    requires |bytes| >= 3 && |stale| == |Encode(bytes)|
    ensures Decode(stale, |bytes|, bytes) == bytes
  {
    hide Hex, Encode, Decode;
    DecodeInvertsEncodeIff(bytes);
  }

  /** Text, sentinel and terminator fit the buffer for every packet of a length exactly up to 74 bytes. */
  lemma TextFitsIff(n: nat)
    ensures (forall bytes: seq<Byte> {:trigger Encode(bytes)} | |bytes| == n :: |Encode(bytes)| + 2 + 1 <= 300) <==> n <= 74
  {
    if n > 74 {
      var wide: seq<Byte> := seq(n, _ => 255);
      WideText(wide);
    }
  }

  lemma {:induction false} WideText(bytes: seq<Byte>)
    requires forall i | 0 <= i < |bytes| :: bytes[i] >= 16
    ensures |Encode(bytes)| == 4 * |bytes|
  {
    if bytes != [] {
      WideText(bytes[1..]);
    }
  }

  /** What the inner loop meets at byte i: the digits and the backslash of the next byte or of the sentinel. */
  lemma DigitsAt(bytes: seq<Byte>, i: nat)
    requires i < |bytes|
    ensures var p, text, digits := |Encode(bytes[..i])|, Encode(bytes) + "\\x", Hex(bytes[i]);
            && p + 2 + |digits| == |Encode(bytes[..i + 1])| < |text| && |digits| + 2 <= |Encode(bytes)|
            && text[p + 2 + |digits|] == '\\'
            && forall k | 0 <= k < |digits| :: text[p + 2 + k] == digits[k] != '\\'
  {
    HexIsDigits(bytes[i]);
    hide Hex, Encode;
    EncodeAt(bytes, i);
    LongEnough(bytes, i);
  }

  /** The inner loop: copies the characters up to the next backslash. */
  method CopyDigits(buffer: array<char>, start: nat, token: array<char>, ghost digits: string) returns (ptr: nat)
    requires buffer != token && start + |digits| < buffer.Length && |digits| <= token.Length
    requires buffer[start + |digits|] == '\\'
    requires forall k | 0 <= k < |digits| :: buffer[start + k] == digits[k] != '\\'
    modifies token
    ensures ptr == start + |digits|
    ensures forall k | 0 <= k < token.Length :: token[k] == if k < |digits| then digits[k] else old(token[k])
  {
    ptr := start;
    var idx := 0;
    while buffer[ptr] != '\\'
      invariant 0 <= idx <= |digits| && ptr == start + idx
      invariant idx < |digits| ==> buffer[ptr] == digits[idx] != '\\'
      invariant forall k | 0 <= k < token.Length :: token[k] == if k < idx then digits[k] else old(token[k])
      decreases |digits| - idx
    {
      token[idx] := buffer[ptr];
      idx, ptr := idx + 1, ptr + 1;
    }
  }

  /** One round of the outer loop: clears the token, copies the digits. */
  method ReadToken(buffer: array<char>, start: nat, token: array<char>, n: nat, ghost digits: string) returns (ptr: nat)
    requires buffer != token && start + |digits| < buffer.Length && |digits| <= token.Length && n <= token.Length
    requires buffer[start + |digits|] == '\\'
    requires forall k | 0 <= k < |digits| :: buffer[start + k] == digits[k] != '\\'
    modifies token
    ensures ptr == start + |digits|
    ensures token[..] == Fill(old(token[..]), n, digits)
  {
    forall k | 0 <= k < n {
      token[k] := NUL;
    }
    ptr := CopyDigits(buffer, start, token, digits);
  }

  lemma NothingYet(stale: string, n: nat, bytes: seq<Byte>)
    ensures |Encode(bytes[..0])| == 0 && TokenAfter(stale, n, bytes[..0]) == stale
  {
  }

  predicate Holds(buffer: array<char>, text: string)
    reads buffer
  {
    |text| <= buffer.Length && forall k | 0 <= k < |text| :: buffer[k] == text[k]
  }

  /** The text with its sentinel, in the zeroed buffer. */
  method LoadText(packet: string) returns (buffer: array<char>)
    requires |packet| + 2 + 1 <= BUFFER
    ensures fresh(buffer) && buffer.Length == BUFFER
    ensures Holds(buffer, packet + "\\x") && forall k | |packet| + 2 <= k < BUFFER :: buffer[k] == NUL
  {
    var text := packet + "\\x";
    buffer := new char[BUFFER](k requires k >= 0 => if k < |text| then text[k] else NUL);
  }

  /** One round of the outer loop, on the text of a packet. */
  method DecodeByte(buffer: array<char>, start: nat, token: array<char>, n: nat, i: nat, ghost stale: string,
                    ghost bytes: seq<Byte>)
    returns (ptr: nat, b: Byte)
    requires buffer != token && Holds(buffer, Encode(bytes) + "\\x")
    requires i < |bytes| == n && token.Length == |Encode(bytes)|
    requires start == |Encode(bytes[..i])| && token[..] == TokenAfter(stale, n, bytes[..i])
    modifies token
    ensures ptr == |Encode(bytes[..i + 1])| && token[..] == TokenAfter(stale, n, bytes[..i + 1])
    ensures b == Decode(stale, n, bytes)[i]
  {
    hide Encode, Hex, Decode, TokenAfter, Fill, Strtol;
    DigitsAt(bytes, i);
    DecodeStep(stale, n, bytes, i);
    DecodeAt(stale, n, bytes, i);
    ghost var text, digits := Encode(bytes) + "\\x", Hex(bytes[i]);
    forall k | 0 <= k < |digits|
      ensures buffer[start + 2 + k] == digits[k] != '\\'
    {
      assert buffer[start + 2 + k] == text[start + 2 + k];
    }
    ptr := ReadToken(buffer, start + 2, token, n, digits);
    b := Chr(Strtol(token[..]));
  }

  /** The decoder, on the text of a packet that fits its buffer. */
  method DecodeUplink(packet: string, n: nat, token: array<char>, ghost bytes: seq<Byte>) returns (data: array<Byte>)
    requires packet == Encode(bytes) && n == |bytes| && |packet| + 2 + 1 <= BUFFER && token.Length == |packet|
    modifies token
    ensures fresh(data) && data[..] == Decode(old(token[..]), n, bytes)
    ensures n >= 3 ==> data[..] == bytes
  {
    hide Encode, Hex, Decode, TokenAfter, Fill, Strtol, Holds;
    ghost var stale := token[..];
    NothingYet(stale, n, bytes);
    var buffer := LoadText(packet);
    data := new Byte[n];
    var ptr := 0;
    for i := 0 to n
      invariant Holds(buffer, packet + "\\x") && ptr == |Encode(bytes[..i])|
      invariant token[..] == TokenAfter(stale, n, bytes[..i])
      invariant forall k | 0 <= k < i :: data[k] == Decode(stale, n, bytes)[k]
    {
      var b: Byte;
      ptr, b := DecodeByte(buffer, ptr, token, n, i, stale, bytes);
      data[i] := b;
    }
    if n >= 3 {
      LongPacketsDecode(stale, bytes);
    }
  }
}
