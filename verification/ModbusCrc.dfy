/** The Modbus RTU checksum (modbus_crc and verify_crc in src/modbus.rs). */
module ModbusCrc {

  function Xor(a: bv16, b: bv16): bv16 {
    a ^ b
  }

  /** One turn of the bit loop. */
  function Shift(crc: bv16): bv16 {
    if crc & 1 != 0 then (crc >> 1) ^ 0xA001 else crc >> 1
  }

  function Shifts(crc: bv16, n: nat): bv16 {
    if n == 0 then crc else Shift(Shifts(crc, n - 1))
  }

  /** One turn of the byte loop. */
  function Absorb(crc: bv16, b: bv8): bv16 {
    Shifts(Xor(crc, b as bv16), 8)
  }

  /** The register after `bytes`, started at `crc`. */
  function Run(crc: bv16, bytes: seq<bv8>): bv16
    decreases |bytes|
  {
    if bytes == [] then crc else Run(Absorb(crc, bytes[0]), bytes[1..])
  }

  function Crc(bytes: seq<bv8>): bv16 {
    Run(0xFFFF, bytes)
  }

  /** modbus_crc: the two nested loops compute the register. */
  method ComputeCrc(bytes: seq<bv8>) returns (crc: bv16)
    ensures crc == Crc(bytes)
  {
    hide Shift;
    crc := 0xFFFF;
    for i := 0 to |bytes|
      invariant Run(crc, bytes[i..]) == Crc(bytes)
    {
      ghost var before := crc;
      crc := Xor(crc, bytes[i] as bv16);
      for k := 0 to 8
        invariant crc == Shifts(Xor(before, bytes[i] as bv16), k)
      {
        crc := Shift(crc);
      }
      assert bytes[i..][1..] == bytes[i + 1..];
    }
  }

  lemma LowBit(a: bv16, b: bv16)
    ensures ((a ^ b) & 1 == 0) == ((a & 1 == 0) == (b & 1 == 0))
  {}

  lemma Halve(a: bv16, b: bv16)
    ensures (a ^ b) >> 1 == (a >> 1) ^ (b >> 1)
  {}

  lemma BothOdd(a: bv16, b: bv16)
    ensures a ^ b == (a ^ 0xA001) ^ (b ^ 0xA001)
  {}

  lemma LeftOdd(a: bv16, b: bv16)
    ensures (a ^ b) ^ 0xA001 == (a ^ 0xA001) ^ b
  {}

  lemma RightOdd(a: bv16, b: bv16)
    ensures (a ^ b) ^ 0xA001 == a ^ (b ^ 0xA001)
  {}

  lemma ShiftLinearBits(a: bv16, b: bv16)
    ensures Shift(a ^ b) == Shift(a) ^ Shift(b)
  {
    LowBit(a, b);
    Halve(a, b);
    if a & 1 != 0 && b & 1 != 0 {
      BothOdd(a >> 1, b >> 1);
    } else if a & 1 != 0 {
      LeftOdd(a >> 1, b >> 1);
    } else if b & 1 != 0 {
      RightOdd(a >> 1, b >> 1);
    }
  }

  lemma ShiftLinear(a: bv16, b: bv16)
    ensures Shift(Xor(a, b)) == Xor(Shift(a), Shift(b))
  {
    hide Shift;
    ShiftLinearBits(a, b);
  }

  lemma ShiftInjective(a: bv16, b: bv16)
    requires Shift(a) == Shift(b)
    ensures a == b
  {}

  lemma {:induction false} ShiftsLinear(a: bv16, b: bv16, n: nat)
    ensures Shifts(Xor(a, b), n) == Xor(Shifts(a, n), Shifts(b, n))
  {
    hide Shift, Xor;
    if n > 0 {
      ShiftsLinear(a, b, n - 1);
      ShiftLinear(Shifts(a, n - 1), Shifts(b, n - 1));
    }
  }

  lemma {:induction false} ShiftsInjective(a: bv16, b: bv16, n: nat)
    requires Shifts(a, n) == Shifts(b, n)
    ensures a == b
  {
    hide Shift;
    if n > 0 {
      ShiftInjective(Shifts(a, n - 1), Shifts(b, n - 1));
      ShiftsInjective(a, b, n - 1);
    }
  }

  lemma {:induction false} RunConcat(crc: bv16, a: seq<bv8>, b: seq<bv8>)
    ensures Run(crc, a + b) == Run(Run(crc, a), b)
    decreases |a|
  {
    if a == [] {
      assert a + b == b;
    } else {
      assert (a + b)[1..] == a[1..] + b;
      RunConcat(Absorb(crc, a[0]), a[1..], b);
    }
  }

  function XorByte(a: bv8, b: bv8): bv8 {
    a ^ b
  }

  /** Bytewise difference of two equally long frames. */
  function Difference(a: seq<bv8>, b: seq<bv8>): (x: seq<bv8>)
    requires |a| == |b|
    ensures |x| == |a|
  {
    seq(|a|, i requires 0 <= i < |a| => XorByte(a[i], b[i]))
  }

  lemma XorRegroup(c: bv16, d: bv16, x: bv8, y: bv8)
    ensures Xor(Xor(c, d), XorByte(x, y) as bv16) == Xor(Xor(c, x as bv16), Xor(d, y as bv16))
  {}

  lemma AbsorbLinear(c: bv16, d: bv16, x: bv8, y: bv8)
    ensures Absorb(Xor(c, d), XorByte(x, y)) == Xor(Absorb(c, x), Absorb(d, y))
  {
    hide Shift, Shifts, Xor, XorByte;
    XorRegroup(c, d, x, y);
    ShiftsLinear(Xor(c, x as bv16), Xor(d, y as bv16), 8);
  }

  /** Linearity over GF(2): the register of a difference is the difference of the registers. */
  lemma {:induction false} RunLinear(c: bv16, d: bv16, a: seq<bv8>, b: seq<bv8>)
    requires |a| == |b|
    ensures Run(Xor(c, d), Difference(a, b)) == Xor(Run(c, a), Run(d, b))
    decreases |a|
  {
    hide Absorb, Xor, XorByte;
    if a != [] {
      AbsorbLinear(c, d, a[0], b[0]);
      assert Difference(a, b)[0] == XorByte(a[0], b[0]);
      assert Difference(a, b)[1..] == Difference(a[1..], b[1..]);
      RunLinear(Absorb(c, a[0]), Absorb(d, b[0]), a[1..], b[1..]);
    }
  }

  lemma XorCancel(c: bv16, d: bv16, b: bv16)
    requires Xor(c, b) == Xor(d, b)
    ensures c == d
  {
    assert Xor(Xor(c, b), b) == c;
    assert Xor(Xor(d, b), b) == d;
  }

  lemma AbsorbInjective(c: bv16, d: bv16, b: bv8)
    requires Absorb(c, b) == Absorb(d, b)
    ensures c == d
  {
    hide Shift, Shifts, Xor;
    ShiftsInjective(Xor(c, b as bv16), Xor(d, b as bv16), 8);
    XorCancel(c, d, b as bv16);
  }

  /** For given bytes, different registers before are different registers after. */
  lemma {:induction false} RunInjective(c: bv16, d: bv16, bytes: seq<bv8>)
    requires Run(c, bytes) == Run(d, bytes)
    ensures c == d
    decreases |bytes|
  {
    hide Absorb;
    if bytes != [] {
      RunInjective(Absorb(c, bytes[0]), Absorb(d, bytes[0]), bytes[1..]);
      AbsorbInjective(c, d, bytes[0]);
    }
  }

  /** Eight turns shift a value whose low byte is zero down to that byte. */
  lemma ShiftHigh(y: bv8)
    ensures Shifts((y as bv16) << 8, 8) == y as bv16
  {
    var v := (y as bv16) << 8;
    assert Shifts(v, 1) == v >> 1;
    assert Shifts(v, 2) == v >> 2;
    assert Shifts(v, 3) == v >> 3;
    assert Shifts(v, 4) == v >> 4;
    assert Shifts(v, 5) == v >> 5;
    assert Shifts(v, 6) == v >> 6;
    assert Shifts(v, 7) == v >> 7;
    assert Shifts(v, 8) == v >> 8;
  }

  function Low(crc: bv16): bv8 {
    (crc & 0xFF) as bv8
  }

  function High(crc: bv16): bv8 {
    (crc >> 8) as bv8
  }

  lemma HighAlone(crc: bv16, x: bv8, y: bv8)
    ensures (Xor(crc, x as bv16) == (y as bv16) << 8) == (x == Low(crc) && y == High(crc))
  {}

  lemma XorZero(a: bv16, y: bv8)
    ensures (Xor(a, y as bv16) == 0) == (a == y as bv16)
  {}

  lemma ShiftsZero(n: nat)
    ensures Shifts(0, n) == 0
  {}

  /** Two more bytes bring the register to 0 exactly when they are its low and its high byte. */
  lemma TwoBytesToZero(crc: bv16, x: bv8, y: bv8)
    ensures (Absorb(Absorb(crc, x), y) == 0) == (x == Low(crc) && y == High(crc))
  {
    hide Shift, Shifts, Xor, Low, High;
    var c := Absorb(crc, x);
    ShiftsZero(8);
    if Absorb(c, y) == 0 {
      ShiftsInjective(Xor(c, y as bv16), 0, 8);
    }
    XorZero(c, y);
    ShiftHigh(y);
    if c == y as bv16 {
      ShiftsInjective(Xor(crc, x as bv16), (y as bv16) << 8, 8);
    }
    HighAlone(crc, x, y);
  }

  /** u16::from_le_bytes. */
  function FromLittleEndian(x: bv8, y: bv8): bv16 {
    (x as bv16) | ((y as bv16) << 8)
  }

  datatype Verdict = Accepted | TooShort | CrcError

  /** verify_crc: the last two bytes, low byte first, against the register of the rest. */
  function VerifyCrc(frame: seq<bv8>): Verdict {
    if |frame| < 4 then TooShort
    else
      var n := |frame| - 2;
      var actual := FromLittleEndian(frame[n], frame[n + 1]);
      if Crc(frame[..n]) != actual then CrcError else Accepted
  }

  /** to_le_bytes of the checksum, as the client appends it to a request. */
  function WithCrc(payload: seq<bv8>): (frame: seq<bv8>)
    ensures |payload| >= 2 ==> VerifyCrc(frame) == Accepted
    ensures |frame| == |payload| + 2 && frame[..|payload|] == payload
  {
    var frame := payload + [Low(Crc(payload)), High(Crc(payload))];
    assert frame[..|payload|] == payload;
    JoinBytes(Crc(payload), Low(Crc(payload)), High(Crc(payload)));
    frame
  }

  lemma JoinParts(crc: bv16)
    ensures FromLittleEndian(Low(crc), High(crc)) == crc
  {}

  lemma LowOfJoin(x: bv8, y: bv8)
    ensures Low(FromLittleEndian(x, y)) == x
  {}

  lemma HighOfJoin(x: bv8, y: bv8)
    ensures High(FromLittleEndian(x, y)) == y
  {}

  lemma JoinBytes(crc: bv16, x: bv8, y: bv8)
    ensures (crc == FromLittleEndian(x, y)) == (x == Low(crc) && y == High(crc))
  {
    hide Low, High, FromLittleEndian;
    JoinParts(crc);
    LowOfJoin(x, y);
    HighOfJoin(x, y);
  }

  lemma RunTwo(crc: bv16, x: bv8, y: bv8)
    ensures Run(crc, [x, y]) == Absorb(Absorb(crc, x), y)
  {
    hide Absorb;
    assert [x, y][1..] == [y];
    assert Run(Absorb(crc, x), [y]) == Run(Absorb(Absorb(crc, x), y), [y][1..]);
  }

  /** A frame of at least four bytes is accepted exactly when its register, checksum included, is 0. */
  lemma AcceptedIffZero(frame: seq<bv8>)
    requires |frame| >= 4
    ensures VerifyCrc(frame) == Accepted <==> Crc(frame) == 0
  {
    hide Absorb, Low, High, FromLittleEndian;
    var n := |frame| - 2;
    var crc := Crc(frame[..n]);
    var tail := frame[n..];
    assert frame == frame[..n] + tail;
    RunConcat(0xFFFF, frame[..n], tail);
    assert tail == [frame[n], frame[n + 1]];
    RunTwo(crc, frame[n], frame[n + 1]);
    TwoBytesToZero(crc, frame[n], frame[n + 1]);
    JoinBytes(crc, frame[n], frame[n + 1]);
  }

  lemma XorSelf(c: bv16)
    ensures Xor(c, c) == 0
  {}

  lemma ZeroByte(x: bv8, y: bv8)
    requires XorByte(x, y) == 0
    ensures x == y
  {}

  /** Two bytes leave a different register for every different pair of byte values. */
  lemma TwoBytesInjective(crc: bv16, x1: bv8, x2: bv8, y1: bv8, y2: bv8)
    requires Absorb(Absorb(crc, x1), x2) == Absorb(Absorb(crc, y1), y2)
    ensures x1 == y1 && x2 == y2
  {
    hide Shift, Shifts, Xor, XorByte, Absorb, Low, High;
    AbsorbLinear(crc, crc, x1, y1);
    AbsorbLinear(Absorb(crc, x1), Absorb(crc, y1), x2, y2);
    XorSelf(crc);
    XorSelf(Absorb(Absorb(crc, x1), x2));
    TwoBytesToZero(0, XorByte(x1, y1), XorByte(x2, y2));
    LowHighZero();
    ZeroByte(x1, y1);
    ZeroByte(x2, y2);
  }

  lemma LowHighZero()
    ensures Low(0) == 0 && High(0) == 0
  {}

  /** Two frames of the same length that differ at most within two adjacent bytes are not both
      accepted unless they are the same frame. */
  lemma BurstDetected(head: seq<bv8>, x: seq<bv8>, y: seq<bv8>, tail: seq<bv8>)
    requires |x| == |y| == 2
    requires VerifyCrc(head + x + tail) == Accepted && VerifyCrc(head + y + tail) == Accepted
    ensures x == y
  {
    hide Absorb;
    AcceptedIffZero(head + x + tail);
    AcceptedIffZero(head + y + tail);
    var c := Run(0xFFFF, head);
    CrcOfParts(head, x, tail);
    CrcOfParts(head, y, tail);
    RunInjective(Absorb(Absorb(c, x[0]), x[1]), Absorb(Absorb(c, y[0]), y[1]), tail);
    TwoBytesInjective(c, x[0], x[1], y[0], y[1]);
  }

  lemma CrcOfParts(head: seq<bv8>, x: seq<bv8>, tail: seq<bv8>)
    requires |x| == 2
    ensures Crc(head + x + tail) == Run(Absorb(Absorb(Run(0xFFFF, head), x[0]), x[1]), tail)
  {
    hide Absorb;
    RunConcat(0xFFFF, head + x, tail);
    RunConcat(0xFFFF, head, x);
    assert x == [x[0], x[1]];
    RunTwo(Run(0xFFFF, head), x[0], x[1]);
  }
}
