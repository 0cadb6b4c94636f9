/** Mapped process data in a logical datagram: the bits of an entry as a number (src/ethercat.rs). */
module PdoBits {
  import opened Bytes

  datatype Option<+T> = None | Some(value: T)

  /** A mapping entry without its name, unit and scale. */
  datatype PdoMap = PdoMap(logicalAddress: u32, bitOffset: nat, bitLength: nat, signed: bool)

  function Pow2(n: nat): (p: nat)
    ensures p > 0
  {
    if n == 0 then 1 else 2 * Pow2(n - 1)
  }

  /** The bytes as one little-endian number. */
  function LeNumber(data: seq<byte>): nat {
    if data == [] then 0 else data[0] as int + 0x100 * LeNumber(data[1..])
  }

  /** n >> k. */
  function Shift(n: nat, k: nat): nat {
    if k == 0 then n else Shift(n / 2, k - 1)
  }

  /** The field of a number: its bits from `bit` on, `length` of them. */
  function Field(n: nat, bit: nat, length: nat): nat {
    Shift(n, bit) % Pow2(length)
  }

  /** The number as an integer of `length` bits in two's complement. */
  function TwosComplement(n: nat, length: nat): int
    requires length > 0
  {
    if n >= Pow2(length - 1) then n - Pow2(length) else n
  }

  function DataBit(data: seq<byte>, j: nat): nat
    requires j < 8 * |data|
  {
    Shift(data[j / 8], j % 8) % 2
  }

  lemma {:induction false} ShiftMore(n: nat, j: nat, k: nat)
    ensures Shift(n, j + k) == Shift(Shift(n, j), k)
    decreases j
  {
    if j > 0 {
      ShiftMore(n / 2, j - 1, k);
    }
  }

  lemma Shift8(n: nat)
    ensures Shift(n, 8) == n / 0x100
  {
    ShiftMore(n, 4, 4);
    Shift4(n);
    Shift4(n / 0x10);
    assert n / 0x10 / 0x10 == n / 0x100;
  }

  lemma Shift4(n: nat)
    ensures Shift(n, 4) == n / 0x10
  {
    assert Shift(n / 2 / 2 / 2 / 2, 0) == n / 2 / 2 / 2 / 2;
    assert Shift(n / 2 / 2, 2) == Shift(n / 2 / 2 / 2, 1);
    assert n / 2 / 2 == n / 4;
    assert n / 4 / 2 / 2 == n / 4 / 4;
  }

  /** The low bits of a number do not see what is above the low byte. */
  lemma {:induction false} LowBit(b: nat, high: nat, c: nat, j: nat)
    requires c == Pow2(j + 1)
    ensures Shift(b + c * high, j) % 2 == Shift(b, j) % 2
    decreases j
  {
    var d := Pow2(j);
    assert c == 2 * d;
    assert b + c * high == b + 2 * (d * high) by {
      assert c * high == 2 * (d * high);
    }
    if j == 0 {
      assert d == 1;
    } else {
      assert (b + 2 * (d * high)) / 2 == b / 2 + d * high;
      LowBit(b / 2, high, d, j - 1);
    }
  }

  /** Bit j of the bytes is bit j of their number. */
  lemma {:induction false} BitOfNumber(data: seq<byte>, j: nat)
    requires j < 8 * |data|
    ensures DataBit(data, j) == Shift(LeNumber(data), j) % 2
    decreases |data|
  {
    var b, high := data[0] as int, LeNumber(data[1..]);
    if j < 8 {
      var scale := Pow2(8 - (j + 1));
      PowSum(j + 1, 8 - (j + 1));
      Pow8();
      assert 0x100 * high == Pow2(j + 1) * (scale * high) by {
        Assoc(Pow2(j + 1), scale, high);
      }
      LowBit(b, scale * high, Pow2(j + 1), j);
    } else {
      BitOfNumber(data[1..], j - 8);
      assert data[1..][(j - 8) / 8] == data[j / 8] && (j - 8) % 8 == j % 8;
      ShiftMore(LeNumber(data), 8, j - 8);
      Shift8(LeNumber(data));
      assert (b + 0x100 * high) / 0x100 == high;
    }
  }

  lemma Assoc(a: nat, b: nat, c: nat)
    ensures (a * b) * c == a * (b * c)
  {}

  lemma Pow8()
    ensures Pow2(8) == 0x100
  {
    assert Pow2(2) == 4 && Pow2(4) == 16 && Pow2(6) == 64;
  }

  lemma {:induction false} PowSum(a: nat, b: nat)
    ensures Pow2(a + b) == Pow2(a) * Pow2(b)
    decreases a
  {
    if a > 0 {
      PowSum(a - 1, b);
      Assoc(2, Pow2(a - 1), Pow2(b));
    }
  }

  /** The remainder modulo 2c, from the last bit and the rest. */
  lemma ModDouble(n: nat, c: nat)
    requires c > 0
    ensures n % (2 * c) == n % 2 + 2 * (n / 2 % c)
  {
    var q, r := n / 2 / c, n / 2 % c;
    assert n / 2 == c * q + r;
    assert n == 2 * (c * q + r) + n % 2;
    assert 2 * (c * q) == (2 * c) * q by {
      Assoc(2, c, q);
    }
    Remainder(n, 2 * c, q, n % 2 + 2 * r);
  }

  lemma Remainder(n: nat, d: nat, q: nat, r: nat)
    requires n == d * q + r && r < d
    ensures n % d == r
  {
    var x := n / d;
    assert n == d * x + n % d;
    if x < q {
      Step(d, x, q);
    } else if q < x {
      Step(d, q, x);
    }
  }

  lemma Step(d: nat, x: int, q: int)
    requires x < q
    ensures d * x + d <= d * q
  {
    assert d * (q - x - 1) >= 0;
    assert d * q == d * x + d + d * (q - x - 1);
  }

  lemma Doubles(i: nat)
    ensures Pow2(0) == 1 && Pow2(i + 1) == 2 * Pow2(i)
  {}

  lemma ShiftHalf(n: nat, i: nat)
    ensures Shift(n, 0) == n && Shift(n, i + 1) == Shift(n / 2, i)
  {}

  lemma TwiceSum(rest: nat, bit: nat, p: nat)
    ensures 2 * (rest + bit * p) == 2 * rest + bit * (2 * p)
  {}

  /** One more bit of a remainder. */
  lemma {:induction false} OneMoreBit(n: nat, i: nat)
    ensures n % Pow2(i + 1) == n % Pow2(i) + (Shift(n, i) % 2) * Pow2(i)
    decreases i
  {
    hide Pow2, Shift;
    Doubles(i);
    ShiftHalf(n, i);
    if i > 0 {
      OneMoreBit(n / 2, i - 1);
      Doubles(i - 1);
      ShiftHalf(n, i - 1);
      ModDouble(n, Pow2(i));
      ModDouble(n, Pow2(i - 1));
      TwiceSum(n / 2 % Pow2(i - 1), Shift(n, i) % 2, Pow2(i - 1));
    }
  }

  /** The bit loop: the field of the little-endian number of all the data. */
  method Extract(data: seq<byte>, bit: nat, length: nat) returns (raw: nat)
    requires bit + length <= 8 * |data|
    ensures raw == Field(LeNumber(data), bit, length) && raw < Pow2(length)
  {
    raw := 0;
    ghost var s := Shift(LeNumber(data), bit);
    for i := 0 to length
      invariant raw == s % Pow2(i)
    {
      BitOfNumber(data, bit + i);
      ShiftMore(LeNumber(data), bit, i);
      OneMoreBit(s, i);
      raw := raw + DataBit(data, bit + i) * Pow2(i);
    }
  }

  /** A 64-bit word read as signed. */
  function Signed64(x: nat): int {
    if x >= Pow2(63) then x - Pow2(64) else x
  }

  /** Shifting up and arithmetically down again extends the sign. */
  method SignExtend(raw: nat, length: nat) returns (value: int)
    requires 1 <= length <= 64 && raw < Pow2(length)
    ensures value == TwosComplement(raw, length)
  {
    var up := Pow2(64 - length);
    Extends(raw, length);
    value := Signed64(raw * up % Pow2(64)) / up;
  }

  lemma Extends(raw: nat, length: nat)
    requires 1 <= length <= 64 && raw < Pow2(length)
    ensures var up := Pow2(64 - length); Signed64(raw * up % Pow2(64)) / up == TwosComplement(raw, length)
  {
    hide Pow2;
    var up, full, half := Pow2(64 - length), Pow2(length), Pow2(length - 1);
    PowSum(length, 64 - length);
    PowSum(length - 1, 64 - length);
    Doubles(length - 1);
    Below(raw, full, up);
    Small(raw * up, Pow2(64));
    Compare(raw, half, up);
    Exact(raw, up);
    Exact(raw - full, up);
    Minus(raw, full, up);
  }

  lemma Small(n: nat, d: nat)
    requires n < d
    ensures n % d == n
  {}

  lemma Minus(a: int, b: int, c: int)
    ensures (a - b) * c == a * c - b * c
  {}

  lemma Below(a: nat, b: nat, c: nat)
    requires a < b && c > 0
    ensures a * c < b * c
  {}

  lemma Compare(a: nat, b: nat, c: nat)
    requires c > 0
    ensures a >= b <==> a * c >= b * c
  {
    if a < b {
      Below(a, b, c);
    } else if b < a {
      Below(b, a, c);
    }
  }

  lemma Exact(a: int, c: nat)
    requires c > 0
    ensures (a * c) / c == a
  {
    var x := (a * c) / c;
    assert a * c == c * x + (a * c) % c;
    if x < a {
      Step(c, x, a);
    } else if a < x {
      Step(c, a, x);
    }
  }

  /** One entry against one datagram: nothing unless all its bits are in the data. */
  method ReadPdo(m: PdoMap, address: u32, data: seq<byte>) returns (value: Option<int>)
    requires m.bitOffset <= 7 && 1 <= m.bitLength <= 64
    ensures value.Some? <==> m.logicalAddress >= address
                             && 8 * (m.logicalAddress - address) + m.bitOffset + m.bitLength <= 8 * |data|
    ensures value.Some? ==>
              var n := Field(LeNumber(data), 8 * (m.logicalAddress - address) + m.bitOffset, m.bitLength);
              value.value == if m.signed then TwosComplement(n, m.bitLength) else n
  {
    if m.logicalAddress < address {
      return None;
    }
    var bit := (m.logicalAddress - address) * 8 + m.bitOffset;
    if bit + m.bitLength > |data| * 8 {
      return None;
    }
    var raw := Extract(data, bit, m.bitLength);
    var signed := SignExtend(raw, m.bitLength);
    return Some(if m.signed then signed else raw);
  }
}
