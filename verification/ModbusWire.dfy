/** Modbus requests and answers byte by byte, as the protocol fixes them. */
module ModbusWire {
  import opened ModbusDecode
  import opened ModbusClient
  import ModbusAscii

  /** Two bytes, the higher one first. */
  function Big(hi: bv8, lo: bv8): bv16 {
    (hi as bv16) * 256 + (lo as bv16)
  }

  lemma BigIs(hi: bv8, lo: bv8)
    ensures U16(hi, lo) == Big(hi, lo)
  {}

  /** A request: slave, function code, address and value or count. */
  lemma RequestBytes(slave: bv8, code: bv8, address: bv16, value: bv16)
    ensures var p := RequestPayload(slave, code, address, value);
            && |p| == 6 && p[0] == slave && p[1] == code
            && Big(p[2], p[3]) == address && Big(p[4], p[5]) == value
  {
    hide HighByte, LowByte, U16, Big;
    BigEndian(address);
    BigEndian(value);
    BigIs(HighByte(address), LowByte(address));
    BigIs(HighByte(value), LowByte(value));
  }

  /** The registers of an answer stand one behind the other, the higher byte first. */
  lemma RegisterBytes(bytes: seq<bv8>, i: nat)
    requires 2 * i + 1 < |bytes|
    ensures i < |Registers(bytes)| && Registers(bytes)[i] == Big(bytes[2 * i], bytes[2 * i + 1])
  {
    hide U16, Big;
    BigIs(bytes[2 * i], bytes[2 * i + 1]);
  }

  /** A refused request is answered under its code with the top bit set. */
  lemma FlaggedCodes()
    ensures Flagged(3) == 0x83 && Flagged(6) == 0x86
  {}

  /** The sixteen digits of the ASCII framing, in capitals. */
  lemma Digits()
    ensures ModbusAscii.Digit(0) == 0x30 && ModbusAscii.Digit(1) == 0x31 && ModbusAscii.Digit(2) == 0x32
    ensures ModbusAscii.Digit(3) == 0x33 && ModbusAscii.Digit(4) == 0x34 && ModbusAscii.Digit(5) == 0x35
    ensures ModbusAscii.Digit(6) == 0x36 && ModbusAscii.Digit(7) == 0x37 && ModbusAscii.Digit(8) == 0x38
    ensures ModbusAscii.Digit(9) == 0x39 && ModbusAscii.Digit(10) == 0x41 && ModbusAscii.Digit(11) == 0x42
    ensures ModbusAscii.Digit(12) == 0x43 && ModbusAscii.Digit(13) == 0x44 && ModbusAscii.Digit(14) == 0x45
    ensures ModbusAscii.Digit(15) == 0x46
  {}

  /** The sum of two bytes, modulo 256. */
  function Plus(a: bv8, b: bv8): bv8 {
    a + b
  }

  /** The sum of all bytes. */
  function Total(bytes: seq<bv8>): bv8 {
    if bytes == [] then 0 else Plus(bytes[0], Total(bytes[1..]))
  }

  lemma Regroup(a: bv8, b: bv8, c: bv8)
    ensures Plus(Plus(a, b), c) == Plus(a, Plus(b, c)) && Plus(a, 0) == Plus(0, a) == a
  {}

  lemma {:induction false} TotalSnoc(bytes: seq<bv8>, b: bv8)
    ensures Total(bytes + [b]) == Plus(Total(bytes), b)
    decreases |bytes|
  {
    hide Plus;
    var all := bytes + [b];
    if bytes == [] {
      assert all[1..] == [];
      Regroup(b, 0, 0);
    } else {
      assert all[1..] == bytes[1..] + [b] && all[0] == bytes[0];
      TotalSnoc(bytes[1..], b);
      Regroup(bytes[0], Total(bytes[1..]), b);
    }
  }

  lemma SumSnoc(bytes: seq<bv8>)
    requires bytes != []
    ensures ModbusAscii.Sum(bytes) == Plus(ModbusAscii.Sum(bytes[..|bytes| - 1]), bytes[|bytes| - 1])
  {}

  lemma {:induction false} SumTotal(bytes: seq<bv8>)
    ensures ModbusAscii.Sum(bytes) == Total(bytes)
  {
    hide Plus;
    if bytes != [] {
      SumSnoc(bytes);
    }
    if bytes != [] {
      var front, last := bytes[..|bytes| - 1], bytes[|bytes| - 1];
      SumTotal(front);
      TotalSnoc(front, last);
      assert bytes == front + [last];
    }
  }

  lemma LrcNegates(p: seq<bv8>)
    ensures Plus(ModbusAscii.Sum(p), ModbusAscii.Lrc(p)) == 0
  {
    hide ModbusAscii.Sum;
  }

  /** A frame in ASCII: colon, two digits a byte, the higher one first, then the byte that brings the sum of
      all to 0, CR and LF. */
  lemma AsciiBytes(p: seq<bv8>) returns (lrc: bv8)
    ensures Plus(Total(p), lrc) == 0
    ensures var f, n := ModbusAscii.AsciiFrame(p), 2 * |p|;
            && |f| == n + 5 && f[0] == 0x3A && f[n + 3] == 0x0D && f[n + 4] == 0x0A
            && (forall k :: 0 <= k < |p| ==> f[1 + 2 * k] == ModbusAscii.Digit(p[k] >> 4)
                                             && f[2 + 2 * k] == ModbusAscii.Digit(p[k] & 15))
            && f[n + 1] == ModbusAscii.Digit(lrc >> 4) && f[n + 2] == ModbusAscii.Digit(lrc & 15)
  {
    hide ModbusAscii.Digit, ModbusAscii.Hex, Total, ModbusAscii.Sum, ModbusAscii.Lrc, Plus;
    lrc := ModbusAscii.Lrc(p);
    SumTotal(p);
    LrcNegates(p);
    var all := p + [lrc];
    var h, f := ModbusAscii.Hex(all), ModbusAscii.AsciiFrame(p);
    assert f == [ModbusAscii.COLON] + h + [ModbusAscii.CR, ModbusAscii.LF] && |h| == 2 * |p| + 2;
    assert forall k :: 0 <= k < |h| ==> f[1 + k] == h[k];
    forall k | 0 <= k < |all|
      ensures h[2 * k] == ModbusAscii.Digit(all[k] >> 4) && h[2 * k + 1] == ModbusAscii.Digit(all[k] & 15)
    {
      HexAt(all, k);
    }
    forall k | 0 <= k < |p|
      ensures f[1 + 2 * k] == ModbusAscii.Digit(p[k] >> 4) && f[2 + 2 * k] == ModbusAscii.Digit(p[k] & 15)
    {
      assert all[k] == p[k] && f[1 + 2 * k] == h[2 * k] && f[1 + (2 * k + 1)] == h[2 * k + 1];
    }
    assert all[|p|] == lrc && f[1 + 2 * |p|] == h[2 * |p|] && f[1 + (2 * |p| + 1)] == h[2 * |p| + 1];
  }

  lemma {:induction false} HexAt(bytes: seq<bv8>, k: nat)
    requires k < |bytes|
    ensures ModbusAscii.Hex(bytes)[2 * k] == ModbusAscii.Digit(bytes[k] >> 4)
    ensures ModbusAscii.Hex(bytes)[2 * k + 1] == ModbusAscii.Digit(bytes[k] & 15)
  {
    hide ModbusAscii.Digit;
    if k < |bytes| - 1 {
      HexAt(bytes[..|bytes| - 1], k);
    }
  }

  // ---- what the offline decoder makes of a request and an answer ----

  /** A request the decoder understands: a read of 1 to 125 registers up to 65535, or the write of one. */
  predicate Understood(q: seq<bv8>) {
    && |q| == 6
    && ((q[1] == 3 && 1 <= Big(q[4], q[5]) as nat <= 125
         && Big(q[2], q[3]) as nat + Big(q[4], q[5]) as nat <= 65536)
        || q[1] == 6)
  }

  /** The registers read, or the echo of the write. */
  predicate Fulfils(q: seq<bv8>, a: seq<bv8>)
    requires |q| == 6
  {
    if q[1] == 3 then
      var n := Big(q[4], q[5]) as nat;
      |a| == 3 + 2 * n && a[0] == q[0] && a[1] == 3 && a[2] as nat == 2 * n
    else a == q
  }

  predicate Refuses(q: seq<bv8>, a: seq<bv8>)
    requires |q| == 6
  {
    |a| == 3 && a[0] == q[0] && a[1] == if q[1] == 3 then 0x83 else 0x86
  }

  lemma BigInjective(a: bv8, b: bv8, c: bv8, e: bv8)
    ensures U16(a, b) == U16(c, e) <==> a == c && b == e
  {}

  lemma ExceptionCode(c: bv8)
    ensures IsException(c) && c & 0x7F == 3 <==> c == 0x83
    ensures IsException(c) && c & 0x7F == 6 <==> c == 0x86
    ensures !IsException(3) && !IsException(6) && 3 & 0x7F == 3 as bv8 && 6 & 0x7F == 6 as bv8
    ensures !IsException(c) ==> c & 0x7F == c
  {}

  lemma RequestMeans(q: seq<bv8>)
    ensures DecodePayload(q, true).error == NoError <==> Understood(q)
    ensures Understood(q) ==>
              && DecodePayload(q, true).slave == Some(q[0]) && DecodePayload(q, true).code == Some(q[1])
              && DecodePayload(q, true).address == Some(U16(q[2], q[3]))
    ensures Understood(q) && q[1] == 3 ==> DecodePayload(q, true).count == Some(U16(q[4], q[5]) as nat)
    ensures Understood(q) && q[1] == 6 ==> DecodePayload(q, true).values == [U16(q[4], q[5])]
  {
    hide U16, Big, IsException;
    if |q| == 6 {
      BigIs(q[2], q[3]);
      BigIs(q[4], q[5]);
    }
  }

  /** An answer without an error and without an exception is a list of registers or an echo. */
  lemma AnswerMeans(a: seq<bv8>)
    ensures var f := DecodePayload(a, false);
            f.error == NoError && f.exception == None <==>
              (|a| >= 3 && a[1] == 3 && ReadPayload(a)) || (|a| == 6 && a[1] == 6)
    ensures var f := DecodePayload(a, false);
            f.error == NoError && f.exception == None ==>
              && |a| >= 2 && f.slave == Some(a[0]) && f.code == Some(a[1])
              && (a[1] == 3 ==> f.count == Some(a[2] as nat / 2))
              && (a[1] == 6 ==> f.address == Some(U16(a[2], a[3])) && f.values == [U16(a[4], a[5])])
  {
    hide U16, Registers, IsException;
    ExceptionCode(3);
    if |a| >= 2 {
      ExceptionCode(a[1]);
    }
  }

  lemma SameEcho(q: seq<bv8>, a: seq<bv8>)
    requires |q| == |a| == 6
    ensures a == q <==> a[0] == q[0] && a[1] == q[1] && U16(a[2], a[3]) == U16(q[2], q[3])
                        && U16(a[4], a[5]) == U16(q[4], q[5])
  {
    hide U16;
    BigInjective(q[2], q[3], a[2], a[3]);
    BigInjective(q[4], q[5], a[4], a[5]);
    assert q == [q[0], q[1], q[2], q[3], q[4], q[5]] && a == [a[0], a[1], a[2], a[3], a[4], a[5]];
  }

  lemma PlainBase(c: bv8)
    requires c == 3 || c == 6
    ensures Base(Some(c)) == Some(c)
  {}

  /** A transaction is a match if and only if the answer fulfils the request, byte by byte. */
  lemma MatchIff(q: seq<bv8>, a: seq<bv8>)
    ensures Classify(DecodePayload(q, true), DecodePayload(a, false)) == Match <==> Understood(q) && Fulfils(q, a)
  {
    hide U16, Big, IsException, Registers, DecodePayload, Base, ReadPayload;
    RequestMeans(q);
    AnswerMeans(a);
    PlainBase(3);
    PlainBase(6);
    if Understood(q) {
      BigIs(q[4], q[5]);
      if q[1] == 3 {
        ReadFits(a, Big(q[4], q[5]) as nat);
      } else if |a| == 6 {
        SameEcho(q, a);
      }
    }
  }

  lemma ReadFits(a: seq<bv8>, n: nat)
    requires 1 <= n <= 125
    ensures |a| >= 3 && a[1] == 3 && ReadPayload(a) && a[2] as nat / 2 == n <==>
            |a| == 3 + 2 * n && a[1] == 3 && a[2] as nat == 2 * n
  {}

  /** It is an exception of the device if and only if the answer refuses the request. */
  lemma ExceptionIff(q: seq<bv8>, a: seq<bv8>)
    ensures Classify(DecodePayload(q, true), DecodePayload(a, false)) == DeviceException <==>
            Understood(q) && Refuses(q, a)
  {
    hide U16, Big, IsException, Registers;
    RequestMeans(q);
    if |a| >= 2 {
      ExceptionCode(a[1]);
    }
  }
}
