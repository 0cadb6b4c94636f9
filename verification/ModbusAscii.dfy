/** Modbus ASCII framing (ascii_frame and decode_ascii in src/modbus.rs). */
module ModbusAscii {

  const COLON: bv8 := 58
  const CR: bv8 := 13
  const LF: bv8 := 10

  datatype Decoded = Decoded(payload: seq<bv8>) | BadFormat | NonHex | LrcError

  function Sum(bytes: seq<bv8>): bv8 {
    if bytes == [] then 0 else Sum(bytes[..|bytes| - 1]) + bytes[|bytes| - 1]
  }

  function Lrc(payload: seq<bv8>): bv8 {
    0 - Sum(payload)
  }

  function Digit(n: bv8): bv8 {
    if n < 10 then 48 + n else 55 + n
  }

  function HighDigit(b: bv8): bv8 {
    Digit(b >> 4)
  }

  function LowDigit(b: bv8): bv8 {
    Digit(b & 15)
  }

  datatype Nibble = Nibble(value: bv8) | NotHex

  /** char::to_digit(16), either case. */
  function ToDigit(c: bv8): Nibble {
    if 48 <= c <= 57 then Nibble(c - 48)
    else if 65 <= c <= 70 then Nibble(c - 55)
    else if 97 <= c <= 102 then Nibble(c - 87)
    else NotHex
  }

  function Hex(bytes: seq<bv8>): (h: seq<bv8>)
    ensures |h| == 2 * |bytes|
  {
    if bytes == [] then []
    else Hex(bytes[..|bytes| - 1]) + [HighDigit(bytes[|bytes| - 1]), LowDigit(bytes[|bytes| - 1])]
  }

  /** The byte a pair of digits stands for. */
  function Pair(h: bv8, l: bv8): Nibble {
    match (ToDigit(h), ToDigit(l))
    case (Nibble(x), Nibble(y)) => Nibble(x * 16 + y)
    case _ => NotHex
  }

  /** The bytes behind pairs of hexadecimal digits. */
  function Unhex(chars: seq<bv8>): (r: Decoded)
    requires |chars| % 2 == 0
    ensures r.Decoded? || r.NonHex?
    ensures r.Decoded? ==> |r.payload| == |chars| / 2
  {
    if chars == [] then Decoded([])
    else
      var n := |chars|;
      match (Unhex(chars[..n - 2]), Pair(chars[n - 2], chars[n - 1]))
      case (Decoded(rest), Nibble(b)) => Decoded(rest + [b])
      case _ => NonHex
  }

  function AsciiFrame(payload: seq<bv8>): (f: seq<bv8>)
    ensures |f| == 2 * |payload| + 5
  {
    [COLON] + Hex(payload + [Lrc(payload)]) + [CR, LF]
  }

  function DecodeAscii(frame: seq<bv8>): (r: Decoded)
    ensures r.Decoded? ==> 2 <= |r.payload| <= 254 && |frame| == 2 * |r.payload| + 5
  {
    var n := |frame|;
    if n < 9 || n > 513 || frame[0] != COLON || frame[n - 2..] != [CR, LF] || (n - 3) % 2 != 0 then BadFormat
    else
      match Unhex(frame[1..n - 2])
      case Decoded(bytes) => if Sum(bytes) != 0 then LrcError else Decoded(bytes[..|bytes| - 1])
      case _ => NonHex
  }

  method EncodeAscii(payload: seq<bv8>) returns (frame: seq<bv8>)
    ensures frame == AsciiFrame(payload)
  {
    hide HighDigit, LowDigit;
    var lrc: bv8 := 0;
    for i := 0 to |payload|
      invariant lrc == Sum(payload[..i])
    {
      assert payload[..i + 1][..i] == payload[..i];
      lrc := lrc + payload[i];
    }
    assert payload[..|payload|] == payload;
    lrc := 0 - lrc;
    var bytes := payload + [lrc];
    frame := [COLON];
    for i := 0 to |bytes|
      invariant frame == [COLON] + Hex(bytes[..i])
    {
      assert bytes[..i + 1][..i] == bytes[..i];
      frame := frame + [HighDigit(bytes[i]), LowDigit(bytes[i])];
    }
    assert bytes[..|bytes|] == bytes;
    frame := frame + [CR, LF];
  }

  lemma UnhexNone(chars: seq<bv8>)
    requires chars == []
    ensures Unhex(chars) == Decoded([])
  {}

  /** One more pair. */
  lemma UnhexStep(chars: seq<bv8>, i: nat)
    requires |chars| % 2 == 0 && i < |chars| / 2 && Unhex(chars[..2 * i]).Decoded?
    ensures Unhex(chars[..2 * i + 2]) == match Pair(chars[2 * i], chars[2 * i + 1])
                                         case Nibble(b) => Decoded(Unhex(chars[..2 * i]).payload + [b])
                                         case NotHex => NonHex
  {
    hide Pair;
    assert chars[..2 * i + 2][..2 * i] == chars[..2 * i];
  }

  method ParseAscii(frame: seq<bv8>) returns (r: Decoded)
    ensures r == DecodeAscii(frame)
  {
    hide Pair, Unhex;
    UnhexNone(frame[..0]);
    var n := |frame|;
    if n < 9 || n > 513 || frame[0] != COLON || frame[n - 2..] != [CR, LF] || (n - 3) % 2 != 0 {
      return BadFormat;
    }
    var chars := frame[1..n - 2];
    var bytes: seq<bv8> := [];
    for i := 0 to |chars| / 2
      invariant Unhex(chars[..2 * i]) == Decoded(bytes)
    {
      UnhexStep(chars, i);
      match Pair(chars[2 * i], chars[2 * i + 1]) {
        case Nibble(b) => bytes := bytes + [b];
        case NotHex =>
          NonHexSpreads(chars, 2 * i + 2);
          return NonHex;
      }
    }
    assert chars[..2 * (|chars| / 2)] == chars;
    if Sum(bytes) != 0 {
      return LrcError;
    }
    return Decoded(bytes[..|bytes| - 1]);
  }

  /** A pair that is not hexadecimal spoils every longer text. */
  lemma {:induction false} NonHexSpreads(chars: seq<bv8>, n: nat)
    requires n <= |chars| && n % 2 == 0 && |chars| % 2 == 0 && Unhex(chars[..n]).NonHex?
    ensures Unhex(chars).NonHex?
    decreases |chars|
  {
    hide Pair;
    if n < |chars| {
      assert chars[..|chars| - 2][..n] == chars[..n];
      NonHexSpreads(chars[..|chars| - 2], n);
    } else {
      assert chars[..n] == chars;
    }
  }

  lemma DigitRoundTrip(n: bv8)
    requires n < 16
    ensures ToDigit(Digit(n)) == Nibble(n)
  {}

  lemma Nibbles(b: bv8)
    ensures b >> 4 < 16 && b & 15 < 16 && (b >> 4) * 16 + (b & 15) == b
  {}

  lemma PairRoundTrip(b: bv8)
    ensures Pair(HighDigit(b), LowDigit(b)) == Nibble(b)
  {
    hide Digit, ToDigit;
    Nibbles(b);
    DigitRoundTrip(b >> 4);
    DigitRoundTrip(b & 15);
  }

  lemma UnhexPair(chars: seq<bv8>, h: bv8, l: bv8)
    requires |chars| % 2 == 0 && Unhex(chars).Decoded? && Pair(h, l).Nibble?
    ensures Unhex(chars + [h, l]) == Decoded(Unhex(chars).payload + [Pair(h, l).value])
  {
    hide Pair;
    assert (chars + [h, l])[..|chars|] == chars;
  }

  lemma UnhexNothing()
    ensures Unhex([]) == Decoded([])
  {}

  lemma {:induction false} HexRoundTrip(bytes: seq<bv8>)
    ensures Unhex(Hex(bytes)) == Decoded(bytes)
  {
    hide HighDigit, LowDigit, Pair, Unhex;
    if bytes == [] {
      UnhexNothing();
    } else {
      var before, b := bytes[..|bytes| - 1], bytes[|bytes| - 1];
      HexRoundTrip(before);
      PairRoundTrip(b);
      UnhexPair(Hex(before), HighDigit(b), LowDigit(b));
      assert before + [b] == bytes;
    }
  }

  lemma PlainDigit(n: bv8)
    requires n < 16
    ensures Digit(n) != LF && Digit(n) != COLON
  {}

  lemma PlainDigits(b: bv8)
    ensures HighDigit(b) != LF && LowDigit(b) != LF
  {
    Nibbles(b);
    PlainDigit(b >> 4);
    PlainDigit(b & 15);
  }

  lemma {:induction false} PlainHex(bytes: seq<bv8>)
    ensures LF !in Hex(bytes)
  {
    hide HighDigit, LowDigit;
    if bytes != [] {
      PlainHex(bytes[..|bytes| - 1]);
      PlainDigits(bytes[|bytes| - 1]);
    }
  }

  /** A frame starts with a colon, and its only line feed is its last byte. */
  lemma OneLineFeed(payload: seq<bv8>)
    ensures var f := AsciiFrame(payload); f[0] == COLON && f[|f| - 1] == LF
    ensures var f := AsciiFrame(payload); forall k :: 0 <= k < |f| - 1 ==> f[k] != LF
  {
    hide Hex;
    var h := Hex(payload + [Lrc(payload)]);
    PlainHex(payload + [Lrc(payload)]);
    var f := AsciiFrame(payload);
    forall k | 0 <= k < |f| - 1 ensures f[k] != LF {
      if 1 <= k <= |h| {
        assert f[k] == h[k - 1] && h[k - 1] in h;
      }
    }
  }

  lemma Cancels(s: bv8)
    ensures s + (0 - s) == 0
  {}

  /** Encoding and decoding give the payload back exactly for 2 to 254 bytes; every other payload
      is refused as badly formed. */
  lemma AsciiRoundTrip(payload: seq<bv8>)
    ensures DecodeAscii(AsciiFrame(payload)) == if 2 <= |payload| <= 254 then Decoded(payload) else BadFormat
  {
    hide AsciiFrame, Unhex, Hex, Sum, Lrc;
    FrameParts(payload);
    HexRoundTrip(payload + [Lrc(payload)]);
    SumCancels(payload);
    assert (payload + [Lrc(payload)])[..|payload|] == payload;
  }

  lemma FrameParts(payload: seq<bv8>)
    ensures var f := AsciiFrame(payload); var n := |f|;
            f[0] == COLON && f[n - 2..] == [CR, LF] && f[1..n - 2] == Hex(payload + [Lrc(payload)])
  {
    hide Lrc;
  }

  lemma SumCancels(payload: seq<bv8>)
    ensures Sum(payload + [Lrc(payload)]) == 0
  {
    assert (payload + [Lrc(payload)])[..|payload|] == payload;
    Cancels(Sum(payload));
  }
}
