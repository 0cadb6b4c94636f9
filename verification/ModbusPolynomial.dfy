/** What the Modbus checksum is: the remainder of a division of polynomials over GF(2). */
module ModbusPolynomial {
  import opened ModbusCrc

  /** The sum of two coefficients. */
  predicate Plus(a: bool, b: bool) {
    a != b
  }

  /** Bit j of a byte; bit 0 is sent first. */
  predicate ByteBit(b: bv8, j: int) {
    match j
    case 0 => b & 0x1 != 0
    case 1 => b & 0x2 != 0
    case 2 => b & 0x4 != 0
    case 3 => b & 0x8 != 0
    case 4 => b & 0x10 != 0
    case 5 => b & 0x20 != 0
    case 6 => b & 0x40 != 0
    case 7 => b & 0x80 != 0
    case _ => false
  }

  /** Bit j of the register, none outside of 0 to 15. */
  predicate RegisterBit(crc: bv16, j: int) {
    match j
    case 0 => crc & 0x1 != 0
    case 1 => crc & 0x2 != 0
    case 2 => crc & 0x4 != 0
    case 3 => crc & 0x8 != 0
    case 4 => crc & 0x10 != 0
    case 5 => crc & 0x20 != 0
    case 6 => crc & 0x40 != 0
    case 7 => crc & 0x80 != 0
    case 8 => crc & 0x100 != 0
    case 9 => crc & 0x200 != 0
    case 10 => crc & 0x400 != 0
    case 11 => crc & 0x800 != 0
    case 12 => crc & 0x1000 != 0
    case 13 => crc & 0x2000 != 0
    case 14 => crc & 0x4000 != 0
    case 15 => crc & 0x8000 != 0
    case _ => false
  }

  /** Bit i of a message in the order of sending. */
  predicate MessageBit(bytes: seq<bv8>, i: int) {
    0 <= i < 8 * |bytes| && ByteBit(bytes[i / 8], i % 8)
  }

  /** The coefficient at place i, 0 outside: polynomials are written from the highest power down. */
  predicate Coefficient(p: seq<bool>, i: int) {
    0 <= i < |p| && p[i]
  }

  /** Place i of the message times x^16, with its first 16 places flipped: the start value 0xFFFF. */
  predicate Dividend(bytes: seq<bv8>, i: int) {
    Plus(MessageBit(bytes, i), 0 <= i < 16)
  }

  /** Place i of q times x^16 + x^15 + x^2 + 1. */
  predicate Product(q: seq<bool>, i: int) {
    Plus(Plus(Coefficient(q, i), Coefficient(q, i - 1)), Plus(Coefficient(q, i - 14), Coefficient(q, i - 16)))
  }

  /** The dividend is q times the polynomial and what is left, r, behind it. */
  ghost predicate Partly(bytes: seq<bv8>, q: seq<bool>, r: bv16) {
    forall i: int :: Dividend(bytes, i) == Plus(Product(q, i), RegisterBit(r, i - |q|))
  }

  /** The division is over: r takes the last 16 places, the powers below x^16. */
  ghost predicate Divides(bytes: seq<bv8>, q: seq<bool>, r: bv16) {
    |q| == 8 * |bytes| && Partly(bytes, q, r)
  }

  // ---- one bit ----

  lemma LowestBits(crc: bv16)
    ensures RegisterBit(Shift(crc), 0) == Plus(RegisterBit(crc, 1), RegisterBit(crc, 0))
    ensures RegisterBit(Shift(crc), 1) == RegisterBit(crc, 2)
    ensures RegisterBit(Shift(crc), 2) == RegisterBit(crc, 3)
    ensures RegisterBit(Shift(crc), 3) == RegisterBit(crc, 4)
  {}

  lemma LowerBits(crc: bv16)
    ensures RegisterBit(Shift(crc), 4) == RegisterBit(crc, 5)
    ensures RegisterBit(Shift(crc), 5) == RegisterBit(crc, 6)
    ensures RegisterBit(Shift(crc), 6) == RegisterBit(crc, 7)
    ensures RegisterBit(Shift(crc), 7) == RegisterBit(crc, 8)
  {}

  lemma HigherBits(crc: bv16)
    ensures RegisterBit(Shift(crc), 8) == RegisterBit(crc, 9)
    ensures RegisterBit(Shift(crc), 9) == RegisterBit(crc, 10)
    ensures RegisterBit(Shift(crc), 10) == RegisterBit(crc, 11)
    ensures RegisterBit(Shift(crc), 11) == RegisterBit(crc, 12)
  {}

  lemma HighestBits(crc: bv16)
    ensures RegisterBit(Shift(crc), 12) == RegisterBit(crc, 13)
    ensures RegisterBit(Shift(crc), 13) == Plus(RegisterBit(crc, 14), RegisterBit(crc, 0))
    ensures RegisterBit(Shift(crc), 14) == RegisterBit(crc, 15)
    ensures RegisterBit(Shift(crc), 15) == RegisterBit(crc, 0)
  {}

  lemma OutsideBits(crc: bv16)
    ensures forall j :: j < 0 || j >= 16 ==> !RegisterBit(crc, j)
  {}

  /** Where bit j of the register after a turn comes from. */
  predicate ComesFrom(crc: bv16, j: int) {
    RegisterBit(Shift(crc), j) ==
      (j >= 0 && Plus(RegisterBit(crc, j + 1), RegisterBit(crc, 0) && (j == 0 || j == 13 || j == 15)))
  }

  lemma FirstQuarter(crc: bv16)
    ensures ComesFrom(crc, 0) && ComesFrom(crc, 1) && ComesFrom(crc, 2) && ComesFrom(crc, 3)
  {
    hide Shift, RegisterBit;
    LowestBits(crc);
  }

  lemma SecondQuarter(crc: bv16)
    ensures ComesFrom(crc, 4) && ComesFrom(crc, 5) && ComesFrom(crc, 6) && ComesFrom(crc, 7)
  {
    hide Shift, RegisterBit;
    LowerBits(crc);
  }

  lemma ThirdQuarter(crc: bv16)
    ensures ComesFrom(crc, 8) && ComesFrom(crc, 9) && ComesFrom(crc, 10) && ComesFrom(crc, 11)
  {
    hide Shift, RegisterBit;
    HigherBits(crc);
  }

  lemma LastQuarter(crc: bv16)
    ensures ComesFrom(crc, 12) && ComesFrom(crc, 13) && ComesFrom(crc, 14) && ComesFrom(crc, 15)
  {
    hide Shift, RegisterBit;
    HighestBits(crc);
    OutsideBits(crc);
  }

  lemma OutsideComes(crc: bv16, j: int)
    requires j < 0 || j >= 16
    ensures ComesFrom(crc, j)
  {
    hide Shift, RegisterBit;
    OutsideBits(crc);
    OutsideBits(Shift(crc));
  }

  /** A turn of the bit loop moves the bits down by one; the lowest bit goes to three places. */
  lemma ShiftedBit(crc: bv16, j: int)
    ensures ComesFrom(crc, j)
  {
    hide ComesFrom;
    if j < 0 || j >= 16 {
      OutsideComes(crc, j);
    } else {
      FirstQuarter(crc);
      SecondQuarter(crc);
      ThirdQuarter(crc);
      LastQuarter(crc);
    }
  }

  lemma OneMoreBit(q: seq<bool>, bit: bool, i: int)
    ensures Coefficient(q + [bit], i) == Plus(Coefficient(q, i), i == |q| && bit)
  {}


  /** One turn of the bit loop takes one more bit of the quotient off. */
  lemma DivideBit(bytes: seq<bv8>, q: seq<bool>, crc: bv16)
    requires Partly(bytes, q, crc)
    ensures Partly(bytes, q + [RegisterBit(crc, 0)], Shift(crc))
  {
    hide Shift, RegisterBit, Dividend, Coefficient;
    var bit := RegisterBit(crc, 0);
    forall i: int
      ensures Dividend(bytes, i) == Plus(Product(q + [bit], i), RegisterBit(Shift(crc), i - |q + [bit]|))
    {
      OneMoreBit(q, bit, i);
      OneMoreBit(q, bit, i - 1);
      OneMoreBit(q, bit, i - 14);
      OneMoreBit(q, bit, i - 16);
      ShiftedBit(crc, i - |q| - 1);
      OutsideBits(crc);
      assert i - |q| - 1 + 1 == i - |q|;
    }
  }

  lemma {:induction false} DivideBits(bytes: seq<bv8>, q: seq<bool>, crc: bv16, n: nat) returns (more: seq<bool>)
    requires Partly(bytes, q, crc)
    ensures |more| == |q| + n && Partly(bytes, more, Shifts(crc, n))
  {
    hide Partly, Shift, RegisterBit;
    if n == 0 {
      more := q;
    } else {
      var before := DivideBits(bytes, q, crc, n - 1);
      DivideBit(bytes, before, Shifts(crc, n - 1));
      more := before + [RegisterBit(Shifts(crc, n - 1), 0)];
    }
  }

  // ---- one byte ----

  lemma XorLowestFirst(crc: bv16, b: bv8)
    ensures RegisterBit(Xor(crc, b as bv16), 0) == Plus(RegisterBit(crc, 0), ByteBit(b, 0))
    ensures RegisterBit(Xor(crc, b as bv16), 1) == Plus(RegisterBit(crc, 1), ByteBit(b, 1))
  {}

  lemma XorLowestLast(crc: bv16, b: bv8)
    ensures RegisterBit(Xor(crc, b as bv16), 2) == Plus(RegisterBit(crc, 2), ByteBit(b, 2))
    ensures RegisterBit(Xor(crc, b as bv16), 3) == Plus(RegisterBit(crc, 3), ByteBit(b, 3))
  {}

  lemma XorLowestBits(crc: bv16, b: bv8)
    ensures RegisterBit(Xor(crc, b as bv16), 0) == Plus(RegisterBit(crc, 0), ByteBit(b, 0))
    ensures RegisterBit(Xor(crc, b as bv16), 1) == Plus(RegisterBit(crc, 1), ByteBit(b, 1))
    ensures RegisterBit(Xor(crc, b as bv16), 2) == Plus(RegisterBit(crc, 2), ByteBit(b, 2))
    ensures RegisterBit(Xor(crc, b as bv16), 3) == Plus(RegisterBit(crc, 3), ByteBit(b, 3))
  {
    hide RegisterBit, ByteBit, Xor;
    XorLowestFirst(crc, b);
    XorLowestLast(crc, b);
  }

  lemma XorBitFour(crc: bv16, b: bv8)
    ensures RegisterBit(Xor(crc, b as bv16), 4) == Plus(RegisterBit(crc, 4), ByteBit(b, 4))
  {}

  lemma XorBitFive(crc: bv16, b: bv8)
    ensures RegisterBit(Xor(crc, b as bv16), 5) == Plus(RegisterBit(crc, 5), ByteBit(b, 5))
  {}

  lemma XorLowerLast(crc: bv16, b: bv8)
    ensures RegisterBit(Xor(crc, b as bv16), 6) == Plus(RegisterBit(crc, 6), ByteBit(b, 6))
    ensures RegisterBit(Xor(crc, b as bv16), 7) == Plus(RegisterBit(crc, 7), ByteBit(b, 7))
  {}

  lemma XorLowerBits(crc: bv16, b: bv8)
    ensures RegisterBit(Xor(crc, b as bv16), 4) == Plus(RegisterBit(crc, 4), ByteBit(b, 4))
    ensures RegisterBit(Xor(crc, b as bv16), 5) == Plus(RegisterBit(crc, 5), ByteBit(b, 5))
    ensures RegisterBit(Xor(crc, b as bv16), 6) == Plus(RegisterBit(crc, 6), ByteBit(b, 6))
    ensures RegisterBit(Xor(crc, b as bv16), 7) == Plus(RegisterBit(crc, 7), ByteBit(b, 7))
  {
    hide RegisterBit, ByteBit, Xor;
    XorBitFour(crc, b);
    XorBitFive(crc, b);
    XorLowerLast(crc, b);
  }

  lemma XorHigherBits(crc: bv16, b: bv8)
    ensures RegisterBit(Xor(crc, b as bv16), 8) == RegisterBit(crc, 8)
    ensures RegisterBit(Xor(crc, b as bv16), 9) == RegisterBit(crc, 9)
    ensures RegisterBit(Xor(crc, b as bv16), 10) == RegisterBit(crc, 10)
    ensures RegisterBit(Xor(crc, b as bv16), 11) == RegisterBit(crc, 11)
  {}

  lemma XorHighestBits(crc: bv16, b: bv8)
    ensures RegisterBit(Xor(crc, b as bv16), 12) == RegisterBit(crc, 12)
    ensures RegisterBit(Xor(crc, b as bv16), 13) == RegisterBit(crc, 13)
    ensures RegisterBit(Xor(crc, b as bv16), 14) == RegisterBit(crc, 14)
    ensures RegisterBit(Xor(crc, b as bv16), 15) == RegisterBit(crc, 15)
  {}

  lemma NoByteBits(b: bv8)
    ensures forall j :: j < 0 || j >= 8 ==> !ByteBit(b, j)
  {}

  /** The next byte is added to the lowest eight bits. */
  lemma AddedBit(crc: bv16, b: bv8, j: int)
    ensures RegisterBit(Xor(crc, b as bv16), j) == Plus(RegisterBit(crc, j), ByteBit(b, j))
  {
    hide Xor, RegisterBit, ByteBit;
    XorLowestBits(crc, b);
    XorLowerBits(crc, b);
    XorHigherBits(crc, b);
    XorHighestBits(crc, b);
    OutsideBits(crc);
    OutsideBits(Xor(crc, b as bv16));
    NoByteBits(b);
  }


  lemma OneMoreByte(bytes: seq<bv8>, b: bv8, i: int)
    ensures MessageBit(bytes + [b], i) == Plus(MessageBit(bytes, i), ByteBit(b, i - 8 * |bytes|))
  {
    hide ByteBit;
    var j := i - 8 * |bytes|;
    if 0 <= j < 8 {
      assert i / 8 == |bytes| && i % 8 == j;
    } else {
      NoByteBits(b);
      if 0 <= i < 8 * |bytes| {
        assert (bytes + [b])[i / 8] == bytes[i / 8];
      }
    }
  }

  /** Adding the next byte to the register brings its bits into the division. */
  lemma TakeByte(bytes: seq<bv8>, q: seq<bool>, crc: bv16, b: bv8)
    requires |q| == 8 * |bytes| && Partly(bytes, q, crc)
    ensures Partly(bytes + [b], q, Xor(crc, b as bv16))
  {
    hide MessageBit, RegisterBit, Xor, Product, ByteBit;
    forall i: int
      ensures Dividend(bytes + [b], i) == Plus(Product(q, i), RegisterBit(Xor(crc, b as bv16), i - |q|))
    {
      assert Dividend(bytes, i) == Plus(Product(q, i), RegisterBit(crc, i - |q|));
      OneMoreByte(bytes, b, i);
      AddedBit(crc, b, i - |q|);
    }
  }

  // ---- the whole message ----

  lemma StartBit(j: int)
    ensures RegisterBit(0xFFFF, j) == (0 <= j < 16)
  {}

  lemma NothingSent(i: int)
    ensures !MessageBit([], i) && !Product([], i)
  {}

  lemma RunSnoc(bytes: seq<bv8>, b: bv8)
    ensures Crc(bytes + [b]) == Shifts(Xor(Crc(bytes), b as bv16), 8)
  {
    hide Shifts, Xor;
    RunConcat(0xFFFF, bytes, [b]);
    assert [b][1..] == [];
    assert Run(Crc(bytes), [b]) == Run(Absorb(Crc(bytes), b), []);
  }

  /** The checksum is the remainder: the dividend is a multiple of the polynomial plus the checksum. */
  lemma {:induction false} CrcDivides(bytes: seq<bv8>) returns (q: seq<bool>)
    ensures Divides(bytes, q, Crc(bytes))
  {
    hide MessageBit, RegisterBit, Product, Xor, Shifts;
    if bytes == [] {
      q := [];
      forall i: int ensures Dividend([], i) == Plus(Product([], i), RegisterBit(0xFFFF, i - 0)) {
        StartBit(i);
        NothingSent(i);
      }
    } else {
      var front, b := bytes[..|bytes| - 1], bytes[|bytes| - 1];
      assert bytes == front + [b];
      var before := CrcDivides(front);
      TakeByte(front, before, Crc(front), b);
      q := DivideBits(bytes, before, Xor(Crc(front), b as bv16), 8);
      RunSnoc(front, b);
    }
  }

  // ---- it is the only one ----

  /** Two multiples of the polynomial that differ only below x^16 are the same multiple. */
  lemma {:induction false} SameQuotient(bytes: seq<bv8>, q1: seq<bool>, r1: bv16, q2: seq<bool>, r2: bv16, n: nat)
    requires Divides(bytes, q1, r1) && Divides(bytes, q2, r2) && n <= |q1|
    ensures q1[..n] == q2[..n]
  {
    hide Dividend, RegisterBit;
    if n > 0 {
      SameQuotient(bytes, q1, r1, q2, r2, n - 1);
      var i := n - 1;
      SameBefore(q1, q2, i, i - 1);
      SameBefore(q1, q2, i, i - 14);
      SameBefore(q1, q2, i, i - 16);
      OutsideBits(r1);
      OutsideBits(r2);
      assert Dividend(bytes, i) == Plus(Product(q1, i), RegisterBit(r1, i - |q1|));
      assert Dividend(bytes, i) == Plus(Product(q2, i), RegisterBit(r2, i - |q2|));
      assert q1[..n] == q1[..i] + [q1[i]] && q2[..n] == q2[..i] + [q2[i]];
    }
  }

  lemma SameBefore(q1: seq<bool>, q2: seq<bool>, n: nat, i: int)
    requires n <= |q1| == |q2| && q1[..n] == q2[..n] && i < n
    ensures Coefficient(q1, i) == Coefficient(q2, i)
  {
    if i >= 0 {
      assert q1[i] == q1[..n][i] && q2[i] == q2[..n][i];
    }
  }

  lemma SameRegister(a: bv16, b: bv16)
    requires forall j: int :: RegisterBit(a, j) == RegisterBit(b, j)
    ensures a == b
  {
    assert RegisterBit(a, 0) == RegisterBit(b, 0);
    assert RegisterBit(a, 1) == RegisterBit(b, 1);
    assert RegisterBit(a, 2) == RegisterBit(b, 2);
    assert RegisterBit(a, 3) == RegisterBit(b, 3);
    assert RegisterBit(a, 4) == RegisterBit(b, 4);
    assert RegisterBit(a, 5) == RegisterBit(b, 5);
    assert RegisterBit(a, 6) == RegisterBit(b, 6);
    assert RegisterBit(a, 7) == RegisterBit(b, 7);
    assert RegisterBit(a, 8) == RegisterBit(b, 8);
    assert RegisterBit(a, 9) == RegisterBit(b, 9);
    assert RegisterBit(a, 10) == RegisterBit(b, 10);
    assert RegisterBit(a, 11) == RegisterBit(b, 11);
    assert RegisterBit(a, 12) == RegisterBit(b, 12);
    assert RegisterBit(a, 13) == RegisterBit(b, 13);
    assert RegisterBit(a, 14) == RegisterBit(b, 14);
    assert RegisterBit(a, 15) == RegisterBit(b, 15);
  }

  /** A register is the checksum if and only if it is the remainder. */
  lemma CrcIsRemainder(bytes: seq<bv8>, r: bv16)
    ensures r == Crc(bytes) <==> exists q: seq<bool> :: Divides(bytes, q, r)
  {
    hide Divides, Crc;
    var q := CrcDivides(bytes);
    forall p: seq<bool> | Divides(bytes, p, r) ensures r == Crc(bytes) {
      SameRemainder(bytes, p, r, q, Crc(bytes));
    }
  }

  lemma SameRemainder(bytes: seq<bv8>, q1: seq<bool>, r1: bv16, q2: seq<bool>, r2: bv16)
    requires Divides(bytes, q1, r1) && Divides(bytes, q2, r2)
    ensures r1 == r2
  {
    hide Dividend, RegisterBit, Product;
    SameQuotient(bytes, q1, r1, q2, r2, |q1|);
    assert q1[..|q1|] == q1 && q2[..|q1|] == q2;
    forall j: int ensures RegisterBit(r1, j) == RegisterBit(r2, j) {
      var i := j + |q1|;
      assert Dividend(bytes, i) == Plus(Product(q1, i), RegisterBit(r1, i - |q1|));
      assert Dividend(bytes, i) == Plus(Product(q2, i), RegisterBit(r2, i - |q2|));
      assert i - |q1| == j;
    }
    SameRegister(r1, r2);
  }

  /** A received frame passes if and only if its dividend is a multiple of the polynomial. */
  lemma AcceptedIffDivisible(frame: seq<bv8>)
    requires |frame| >= 4
    ensures VerifyCrc(frame) == Accepted <==> exists q: seq<bool> :: Divides(frame, q, 0)
  {
    hide Divides, Crc, VerifyCrc;
    AcceptedIffZero(frame);
    CrcIsRemainder(frame, 0);
  }

  // ---- the published check value ----

  predicate Turns(v: seq<bv16>) {
    |v| == 9 && forall k :: 0 <= k < 8 ==> v[k + 1] == Shift(v[k])
  }

  lemma Eight(crc: bv16, b: bv8, v: seq<bv16>)
    requires Turns(v) && v[0] == Xor(crc, b as bv16)
    ensures Absorb(crc, b) == v[8]
  {
    hide Shift, Xor;
    assert Shifts(v[0], 1) == v[1];
    assert Shifts(v[0], 2) == v[2];
    assert Shifts(v[0], 3) == v[3];
    assert Shifts(v[0], 4) == v[4];
    assert Shifts(v[0], 5) == v[5];
    assert Shifts(v[0], 6) == v[6];
    assert Shifts(v[0], 7) == v[7];
  }

  lemma Digit1()
    ensures Absorb(0xFFFF, 0x31) == 0x947E
  {
    Eight(0xFFFF, 0x31, [0xFFCE, 0x7FE7, 0x9FF2, 0x4FF9, 0x87FD, 0xE3FF, 0xD1FE, 0x68FF, 0x947E]);
  }

  lemma Digit2()
    ensures Absorb(0x947E, 0x32) == 0xF595
  {
    Eight(0x947E, 0x32, [0x944C, 0x4A26, 0x2513, 0xB288, 0x5944, 0x2CA2, 0x1651, 0xAB29, 0xF595]);
  }

  lemma Digit3()
    ensures Absorb(0xF595, 0x33) == 0x7A75
  {
    Eight(0xF595, 0x33, [0xF5A6, 0x7AD3, 0x9D68, 0x4EB4, 0x275A, 0x13AD, 0xA9D7, 0xF4EA, 0x7A75]);
  }

  lemma Digit4()
    ensures Absorb(0x7A75, 0x34) == 0x30BA
  {
    Eight(0x7A75, 0x34, [0x7A41, 0x9D21, 0xEE91, 0xD749, 0xCBA5, 0xC5D3, 0xC2E8, 0x6174, 0x30BA]);
  }

  lemma Digit5()
    ensures Absorb(0x30BA, 0x35) == 0xA471
  {
    Eight(0x30BA, 0x35, [0x308F, 0xB846, 0x5C23, 0x8E10, 0x4708, 0x2384, 0x11C2, 0x08E1, 0xA471]);
  }

  lemma Digit6()
    ensures Absorb(0xA471, 0x36) == 0x32E4
  {
    Eight(0xA471, 0x36, [0xA447, 0xF222, 0x7911, 0x9C89, 0xEE45, 0xD723, 0xCB90, 0x65C8, 0x32E4]);
  }

  lemma Digit7()
    ensures Absorb(0x32E4, 0x37) == 0x9D73
  {
    Eight(0x32E4, 0x37, [0x32D3, 0xB968, 0x5CB4, 0x2E5A, 0x172D, 0xAB97, 0xF5CA, 0x7AE5, 0x9D73]);
  }

  lemma Digit8()
    ensures Absorb(0x9D73, 0x38) == 0x37DD
  {
    Eight(0x9D73, 0x38, [0x9D4B, 0xEEA4, 0x7752, 0x3BA9, 0xBDD5, 0xFEEB, 0xDF74, 0x6FBA, 0x37DD]);
  }

  lemma Digit9()
    ensures Absorb(0x37DD, 0x39) == 0x4B37
  {
    Eight(0x37DD, 0x39, [0x37E4, 0x1BF2, 0x0DF9, 0xA6FD, 0xF37F, 0xD9BE, 0x6CDF, 0x966E, 0x4B37]);
  }

  /** The registers v between the bytes, one by one. */
  lemma {:induction false} RunIs(bytes: seq<bv8>, v: seq<bv16>)
    requires |v| == |bytes| + 1 && forall k :: 0 <= k < |bytes| ==> Absorb(v[k], bytes[k]) == v[k + 1]
    ensures Run(v[0], bytes) == v[|bytes|]
    decreases |bytes|
  {
    hide Absorb;
    if bytes != [] {
      assert Absorb(v[0], bytes[0]) == v[1];
      RunIs(bytes[1..], v[1..]);
    }
  }

  /** The checksum of the text "123456789". */
  lemma CheckValue()
    ensures Crc([0x31, 0x32, 0x33, 0x34, 0x35, 0x36, 0x37, 0x38, 0x39]) == 0x4B37
  {
    hide Run, Absorb;
    Digit1();
    Digit2();
    Digit3();
    Digit4();
    Digit5();
    Digit6();
    Digit7();
    Digit8();
    Digit9();
    RunIs([0x31, 0x32, 0x33, 0x34, 0x35, 0x36, 0x37, 0x38, 0x39],
          [0xFFFF, 0x947E, 0xF595, 0x7A75, 0x30BA, 0xA471, 0x32E4, 0x9D73, 0x37DD, 0x4B37]);
  }
}
