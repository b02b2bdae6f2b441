/**
 * Table-driven CRC-8 and CRC-16 (mbed/crc.h).
 *
 * Each template instance CRC8<polynomial> / CRC16<polynomial, reverse>
 * shares one static lookup table and a `tableReady` flag among its
 * objects; the table is modelled as an object of its own (`Crc8Table`,
 * `Crc16Table`) that every CRC object refers to.
 *
 * Registers are integers of the source's widths (`byte`, `uint16`):
 * `r << 1` is `(2 * r) % 2^w`, `r >> 1` is `r / 2`, the bit tests
 * `r & 0x80`, `r & 0x8000` and `r & 1` are `r >= 0x80`, `r >= 0x8000` and
 * `r % 2 == 1`, and `^` is `Xor`.
 *
 * The specification of both checksums is bitwise modulo-2 division, one
 * message bit per shift (`Divide8`, `Divide16`); the methods use the
 * tables, and their contracts say they compute the bitwise result.
 */
module Crc {
  import opened CString

  // ---------------------------------------------------------------------
  // Exclusive or on naturals

  function Pow2(n: nat): (p: nat)
    ensures p > 0
  {
    if n == 0 then 1 else 2 * Pow2(n - 1)
  }

  /** Bitwise exclusive or, lowest bit first. */
  function Xor(a: nat, b: nat): nat
    decreases a + b
  {
    if a == 0 then b
    else if b == 0 then a
    else 2 * Xor(a / 2, b / 2) + (if a % 2 == b % 2 then 0 else 1)
  }

  /** Exclusive or of two uint8_t values. */
  function Xor8(a: byte, b: byte): (r: byte)
    ensures r == Xor(a, b)
  {
    Pow2Values();
    XorBound(a, b, 8);
    Xor(a, b)
  }

  /** Exclusive or of two uint16_t values. */
  function Xor16(a: uint16, b: uint16): (r: uint16)
    ensures r == Xor(a, b)
  {
    Pow2Values();
    XorBound(a, b, 16);
    Xor(a, b)
  }

  /** The lowest bit of an exclusive or, and the rest. */
  lemma XorBits(a: nat, b: nat)
    ensures Xor(a, b) / 2 == Xor(a / 2, b / 2)
    ensures Xor(a, b) % 2 == if a % 2 == b % 2 then 0 else 1
  {
    if a == 0 {
      assert Xor(a / 2, b / 2) == b / 2;
    } else if b == 0 {
      assert Xor(a / 2, b / 2) == a / 2;
    }
  }

  lemma {:induction false} XorComm(a: nat, b: nat)
    ensures Xor(a, b) == Xor(b, a)
    decreases a + b
  {
    if a + b > 0 {
      XorComm(a / 2, b / 2);
      XorBits(a, b);
      XorBits(b, a);
    }
  }

  lemma {:induction false} XorSelf(a: nat)
    ensures Xor(a, a) == 0
    decreases a
  {
    if a > 0 {
      XorSelf(a / 2);
      XorBits(a, a);
    }
  }

  lemma {:induction false} XorAssoc(a: nat, b: nat, c: nat)
    ensures Xor(Xor(a, b), c) == Xor(a, Xor(b, c))
    decreases a + b + c
  {
    if a + b + c > 0 {
      XorAssoc(a / 2, b / 2, c / 2);
      XorBits(a, b);
      XorBits(Xor(a, b), c);
      XorBits(b, c);
      XorBits(a, Xor(b, c));
    }
  }

  /** A value exclusive-ored in twice cancels out. */
  lemma XorCancel(x: nat, y: nat, p: nat)
    ensures Xor(Xor(x, p), Xor(y, p)) == Xor(x, y)
  {
    XorAssoc(x, p, Xor(y, p));
    XorComm(y, p);
    XorAssoc(p, p, y);
    XorSelf(p);
  }

  /** A value exclusive-ored in on either side gives the same. */
  lemma XorSwap(x: nat, y: nat, p: nat)
    ensures Xor(Xor(x, y), p) == Xor(Xor(x, p), y)
  {
    XorAssoc(x, y, p);
    XorComm(y, p);
    XorAssoc(x, p, y);
  }

  lemma XorDouble(x: nat, y: nat)
    ensures Xor(2 * x, 2 * y) == 2 * Xor(x, y)
  {
    XorBits(2 * x, 2 * y);
  }

  /** `x / d` as a natural, checked once here rather than at every use. */
  function Quot(x: nat, d: nat): nat
    requires d > 0
  {
    x / d
  }

  lemma MulAtLeast(d: nat, k: nat)
    requires k >= 1
    ensures d * k >= d
  {
    assert d * k == d + d * (k - 1);
  }

  lemma DivUnique(x: nat, d: nat, q: nat, s: nat)
    requires d > 0 && x == d * q + s && s < d
    ensures x / d == q && x % d == s
  {
    var q', s' := x / d, x % d;
    assert x == d * q' + s';
    if q' > q {
      assert d * q' == d * q + d * (q' - q);
      MulAtLeast(d, q' - q);
      assert false;
    } else if q' < q {
      assert d * q == d * q' + d * (q - q');
      MulAtLeast(d, q - q');
      assert false;
    }
  }

  lemma DivMod2(x: nat, m: nat, m2: nat)
    requires m > 0 && m2 == 2 * m
    ensures x / m2 == (x / 2) / m
    ensures x % m2 == 2 * ((x / 2) % m) + x % 2
  {
    var q, r := x / 2, x % 2;
    var q2, r2 := q / m, q % m;
    assert x == m2 * q2 + (2 * r2 + r) by {
      assert q == m * q2 + r2;
      assert 2 * q == 2 * (m * q2) + 2 * r2;
    }
    DivUnique(x, m2, q2, 2 * r2 + r);
  }

  /** Exclusive or works on the bits above and below `m` separately. */
  ghost predicate SplitsAt(a: nat, b: nat, m: nat)
    requires m > 0
  {
    Xor(a, b) / m == Xor(Quot(a, m), Quot(b, m)) && Xor(a, b) % m == Xor(a % m, b % m)
  }

  /** The high half of the induction step of XorSplit: from `m` to `2 * m`. */
  lemma XorSplitDiv(a: nat, b: nat, m: nat, m2: nat)
    requires m > 0 && m2 == 2 * m
    requires Xor(a / 2, b / 2) / m == Xor(Quot(a / 2, m), Quot(b / 2, m))
    ensures Xor(a, b) / m2 == Xor(Quot(a, m2), Quot(b, m2))
  {
    XorBits(a, b);
    DivMod2(Xor(a, b), m, m2);
    DivMod2(a, m, m2);
    DivMod2(b, m, m2);
  }

  /** The low half of the induction step of XorSplit: from `m` to `2 * m`. */
  lemma XorSplitMod(a: nat, b: nat, m: nat, m2: nat)
    requires m > 0 && m2 == 2 * m
    requires Xor(a / 2, b / 2) % m == Xor((a / 2) % m, (b / 2) % m)
    ensures Xor(a, b) % m2 == Xor(a % m2, b % m2)
  {
    var c := Xor(a, b);
    XorBits(a, b);
    DivMod2(c, m, m2);
    DivMod2(a, m, m2);
    DivMod2(b, m, m2);
    var x, y := (a / 2) % m, (b / 2) % m;
    var u, v := a % m2, b % m2;
    Halves(u, x, a % 2);
    Halves(v, y, b % 2);
    XorBits(u, v);
    assert c % m2 == 2 * Xor(x, y) + c % 2;
    assert Xor(u, v) == 2 * Xor(x, y) + c % 2 by {
      assert Xor(u, v) == 2 * (Xor(u, v) / 2) + Xor(u, v) % 2;
    }
  }

  lemma Halves(u: nat, x: nat, bit: nat)
    requires bit < 2 && u == 2 * x + bit
    ensures u / 2 == x && u % 2 == bit
  {
  }

  /** The induction step of XorSplitAt. */
  lemma XorSplitStep(a: nat, b: nat, m: nat, m2: nat)
    requires m > 0 && m2 == 2 * m && SplitsAt(a / 2, b / 2, m)
    ensures SplitsAt(a, b, m2)
  {
    XorSplitDiv(a, b, m, m2);
    XorSplitMod(a, b, m, m2);
  }

  lemma {:induction false} XorSplitAt(a: nat, b: nat, k: nat)
    ensures SplitsAt(a, b, Pow2(k))
  {
    if k > 0 {
      var m, m2 := Pow2(k - 1), Pow2(k);
      XorSplitAt(a / 2, b / 2, k - 1);
      XorSplitStep(a, b, m, m2);
    }
  }

  /** Exclusive or works on the high and the low `k` bits separately. */
  lemma XorSplit(a: nat, b: nat, k: nat)
    ensures Xor(a, b) / Pow2(k) == Xor(Quot(a, Pow2(k)), Quot(b, Pow2(k)))
    ensures Xor(a, b) % Pow2(k) == Xor(a % Pow2(k), b % Pow2(k))
  {
    XorSplitAt(a, b, k);
  }

  lemma Pow2Values()
    ensures Pow2(8) == 0x100 && Pow2(15) == 0x8000 && Pow2(16) == 0x1_0000
  {
    assert Pow2(4) == 0x10;
    assert Pow2(8) == 0x100;
    assert Pow2(12) == 0x1000;
  }

  lemma XorBound(a: nat, b: nat, k: nat)
    requires a < Pow2(k) && b < Pow2(k)
    ensures Xor(a, b) < Pow2(k)
  {
    XorSplit(a, b, k);
  }

  // ---------------------------------------------------------------------
  // Bitwise division

  /** One shift of an MSB-first 8-bit division: shift left, subtract the polynomial when the top bit fell out. */
  function Shift8(poly: byte, r: byte): byte
  {
    if r >= 0x80 then Xor8((2 * r) % 0x100, poly) else (2 * r) % 0x100
  }

  /** `n` shifts of an 8-bit division. */
  function Divide8(poly: byte, r: byte, n: nat): byte
  {
    if n == 0 then r else Shift8(poly, Divide8(poly, r, n - 1))
  }

  /** CRC-8 of one more byte, bit by bit: the byte enters the register and eight shifts follow. */
  function Crc8Step(poly: byte, rem: byte, value: byte): byte
  {
    Divide8(poly, Xor8(rem, value), 8)
  }

  /** CRC-8 of a message, starting from `rem`. */
  function Crc8Of(poly: byte, rem: byte, msg: seq<byte>): byte
  {
    if msg == [] then rem else Crc8Step(poly, Crc8Of(poly, rem, msg[..|msg| - 1]), msg[|msg| - 1])
  }

  /** One shift of an LSB-first 16-bit division, the polynomial given bit-reversed. */
  function ShiftReflected(poly: uint16, r: uint16): uint16
  {
    if r % 2 == 1 then Xor16(r / 2, poly) else r / 2
  }

  /** One shift of an MSB-first 16-bit division. */
  function ShiftNormal(poly: uint16, r: uint16): uint16
  {
    if r >= 0x8000 then Xor16((2 * r) % 0x1_0000, poly) else (2 * r) % 0x1_0000
  }

  /** One shift of a 16-bit division: MSB first (normal) or LSB first (reflected). */
  function Shift16(poly: uint16, reverse: bool, r: uint16): uint16
  {
    if reverse then ShiftReflected(poly, r) else ShiftNormal(poly, r)
  }

  /** `n` shifts of a 16-bit division. */
  function Divide16(poly: uint16, reverse: bool, r: uint16, n: nat): uint16
  {
    if n == 0 then r else Shift16(poly, reverse, Divide16(poly, reverse, r, n - 1))
  }

  /**
   * CRC-16 of one more byte, bit by bit: the byte enters the register at
   * the end shifted out first (the bottom byte when reflected, the top
   * byte when normal) and eight shifts follow.
   */
  function Crc16Step(poly: uint16, reverse: bool, rem: uint16, value: byte): uint16
  {
    if reverse then Divide16(poly, true, Xor16(rem, value), 8)
    else Divide16(poly, false, Xor16(rem, value * 0x100), 8)
  }

  /** CRC-16 of a message, starting from `rem`. */
  function Crc16Of(poly: uint16, reverse: bool, rem: uint16, msg: seq<byte>): uint16
  {
    if msg == [] then rem
    else Crc16Step(poly, reverse, Crc16Of(poly, reverse, rem, msg[..|msg| - 1]), msg[|msg| - 1])
  }

  /** The table entry of a dividend: the dividend placed where the division starts, after eight shifts. */
  function Entry16(poly: uint16, reverse: bool, d: byte): uint16
  {
    Divide16(poly, reverse, if reverse then d else d * 0x100, 8)
  }

  // ---------------------------------------------------------------------
  // Why one table lookup per byte is the bitwise division

  /** A reflected shift is linear over GF(2). */
  lemma ReflectedLinear(poly: uint16, a: uint16, b: uint16)
    ensures ShiftReflected(poly, Xor16(a, b)) == Xor16(ShiftReflected(poly, a), ShiftReflected(poly, b))
  {
    XorBits(a, b);
    var x, y := a / 2, b / 2;
    if a % 2 == 1 && b % 2 == 1 {
      XorCancel(x, y, poly);
    } else if a % 2 == 1 {
      XorSwap(x, y, poly);
    } else if b % 2 == 1 {
      XorAssoc(x, y, poly);
    }
  }

  /** A normal shift doubles the low fifteen bits and subtracts the polynomial when the top bit was set. */
  lemma NormalShape(poly: uint16, r: uint16)
    ensures ShiftNormal(poly, r) == if r >= 0x8000 then Xor(2 * (r % 0x8000), poly) else 2 * (r % 0x8000)
  {
  }

  /** The top bit of an exclusive or. */
  lemma TopBit(a: uint16, b: uint16)
    ensures Xor(a, b) >= 0x8000 <==> (a >= 0x8000) != (b >= 0x8000)
    ensures Xor(a, b) % 0x8000 == Xor(a % 0x8000, b % 0x8000)
  {
    Pow2Values();
    XorSplit(a, b, 15);
    XorBound(a, b, 16);
    var ah, bh := a / 0x8000, b / 0x8000;
    assert ah == if a >= 0x8000 then 1 else 0;
    assert bh == if b >= 0x8000 then 1 else 0;
    assert Xor(0, 0) == 0 && Xor(1, 0) == 1 && Xor(0, 1) == 1 && Xor(1, 1) == 0;
    var c := Xor(a, b);
    assert c / 0x8000 == Xor(ah, bh);
    assert c >= 0x8000 <==> c / 0x8000 == 1;
  }

  /** A normal shift is linear over GF(2). */
  lemma NormalLinear(poly: uint16, a: uint16, b: uint16)
    ensures ShiftNormal(poly, Xor16(a, b)) == Xor16(ShiftNormal(poly, a), ShiftNormal(poly, b))
  {
    var c := Xor16(a, b);
    NormalShape(poly, a);
    NormalShape(poly, b);
    NormalShape(poly, c);
    TopBit(a, b);
    var x, y := 2 * (a % 0x8000), 2 * (b % 0x8000);
    XorDouble(a % 0x8000, b % 0x8000);
    assert 2 * (c % 0x8000) == Xor(x, y);
    if a >= 0x8000 && b >= 0x8000 {
      XorCancel(x, y, poly);
    } else if a >= 0x8000 {
      XorSwap(x, y, poly);
    } else if b >= 0x8000 {
      XorAssoc(x, y, poly);
    }
  }

  lemma ShiftLinear(poly: uint16, reverse: bool, a: uint16, b: uint16)
    ensures Shift16(poly, reverse, Xor16(a, b)) == Xor16(Shift16(poly, reverse, a), Shift16(poly, reverse, b))
  {
    if reverse {
      ReflectedLinear(poly, a, b);
    } else {
      NormalLinear(poly, a, b);
    }
  }

  /** Division is linear over GF(2): the remainder of a sum is the sum of the remainders. */
  lemma {:induction false} DivideLinear(poly: uint16, reverse: bool, a: uint16, b: uint16, n: nat)
    ensures Divide16(poly, reverse, Xor16(a, b), n) == Xor16(Divide16(poly, reverse, a, n), Divide16(poly, reverse, b, n))
  {
    if n > 0 {
      DivideLinear(poly, reverse, a, b, n - 1);
      ShiftLinear(poly, reverse, Divide16(poly, reverse, a, n - 1), Divide16(poly, reverse, b, n - 1));
    }
  }

  /** `x << n` in unbounded arithmetic. */
  function Shl(x: nat, n: nat): nat
  {
    if n == 0 then x else 2 * Shl(x, n - 1)
  }

  lemma {:induction false} ShlIsMul(x: nat, n: nat)
    ensures Shl(x, n) == x * Pow2(n)
  {
    if n > 0 {
      ShlIsMul(x, n - 1);
      assert x * Pow2(n) == 2 * (x * Pow2(n - 1)) by {
        assert Pow2(n) == 2 * Pow2(n - 1);
      }
    }
  }

  lemma {:induction false} ShlBound(x: byte, n: nat)
    ensures Shl(x, n) < Pow2(8 + n)
  {
    if n == 0 {
      Pow2Values();
    } else {
      ShlBound(x, n - 1);
    }
  }

  /** The top byte of a reflected register only moves down during eight shifts: the polynomial never comes in. */
  lemma {:induction false} QuietReflected(poly: uint16, h: byte, n: nat)
    requires n <= 8
    ensures Divide16(poly, true, h * 0x100, n) == Shl(h, 8 - n)
  {
    if n == 0 {
      ShlIsMul(h, 8);
      Pow2Values();
    } else {
      QuietReflected(poly, h, n - 1);
      var r := Divide16(poly, true, h * 0x100, n - 1);
      assert r == 2 * Shl(h, 8 - n);
      assert ShiftReflected(poly, r) == Shl(h, 8 - n);
    }
  }

  lemma {:induction false} Pow2AtMost(k: nat, j: nat)
    requires k <= j
    ensures Pow2(k) <= Pow2(j)
    decreases j - k
  {
    if k < j {
      Pow2AtMost(k, j - 1);
    }
  }

  /** The bottom byte of a normal register only moves up during eight shifts: the polynomial never comes in. */
  lemma {:induction false} QuietNormal(poly: uint16, l: byte, n: nat)
    requires n <= 8
    ensures Divide16(poly, false, l, n) == Shl(l, n)
  {
    if n > 0 {
      QuietNormal(poly, l, n - 1);
      var r := Divide16(poly, false, l, n - 1);
      assert r < 0x8000 by {
        ShlBound(l, n - 1);
        Pow2AtMost(8 + n - 1, 15);
        Pow2Values();
      }
      NormalShape(poly, r);
    }
  }

  /** What CRC16::update computes with a table of entries: the reflected and the normal lookup. */
  function TableStep16(poly: uint16, reverse: bool, rem: uint16, value: byte): uint16
  {
    if reverse then Xor16(Entry16(poly, true, Xor8(value, rem % 0x100)), rem / 0x100)
    else Xor16(Entry16(poly, false, Xor8(value, rem / 0x100)), (rem * 0x100) % 0x1_0000)
  }

  /** A register is its top and bottom bytes: exclusive-oring a byte into the bottom touches only the bottom. */
  lemma RegroupReflected(rem: uint16, value: byte)
    ensures Xor(rem, value) == Xor(Xor(value, rem % 0x100), (rem / 0x100) * 0x100)
  {
    var data: nat, h: nat := Xor(value, rem % 0x100), rem / 0x100;
    var x, y := Xor(rem, value), Xor(data, h * 0x100);
    assert x / 0x100 == h && x % 0x100 == data by {
      Pow2Values();
      XorSplit(rem, value, 8);
      XorComm(value, rem % 0x100);
      assert Quot(rem, 0x100) == h && Quot(value, 0x100) == 0;
    }
    assert y / 0x100 == h && y % 0x100 == data by {
      Pow2Values();
      XorBound(value, rem % 0x100, 8);
      XorSplit(data, h * 0x100, 8);
      assert Quot(data, 0x100) == 0 && Quot(h * 0x100, 0x100) == h;
      assert (h * 0x100) % 0x100 == 0;
    }
  }

  /** Exclusive-oring a byte into the top of a register touches only the top. */
  lemma RegroupNormal(rem: uint16, value: byte)
    ensures Xor(rem, value * 0x100) == Xor(Xor(value, rem / 0x100) * 0x100, rem % 0x100)
  {
    var data: nat, l: nat, v: nat := Xor(value, rem / 0x100), rem % 0x100, value * 0x100;
    var x, y := Xor(rem, v), Xor(data * 0x100, l);
    assert x / 0x100 == data && x % 0x100 == l by {
      Pow2Values();
      XorSplit(rem, v, 8);
      XorComm(value, rem / 0x100);
      assert Quot(rem, 0x100) == rem / 0x100 && Quot(v, 0x100) == value;
      assert v % 0x100 == 0;
    }
    assert y / 0x100 == data && y % 0x100 == l by {
      Pow2Values();
      XorBound(value, rem / 0x100, 8);
      XorSplit(data * 0x100, l, 8);
      assert Quot(data * 0x100, 0x100) == data && Quot(l, 0x100) == 0;
      assert (data * 0x100) % 0x100 == 0;
    }
  }

  /** The reflected table lookup is one byte of LSB-first division. */
  lemma TableStepReflected(poly: uint16, rem: uint16, value: byte)
    ensures TableStep16(poly, true, rem, value) == Crc16Step(poly, true, rem, value)
  {
    var data: nat, h: nat := Xor8(value, rem % 0x100), rem / 0x100;
    RegroupReflected(rem, value);
    assert Xor16(rem, value) == Xor16(data, h * 0x100);
    DivideLinear(poly, true, data, h * 0x100, 8);
    QuietReflected(poly, h, 8);
  }

  /** The normal table lookup is one byte of MSB-first division. */
  lemma TableStepNormal(poly: uint16, rem: uint16, value: byte)
    ensures TableStep16(poly, false, rem, value) == Crc16Step(poly, false, rem, value)
  {
    var data: nat, l: nat := Xor8(value, rem / 0x100), rem % 0x100;
    RegroupNormal(rem, value);
    assert Xor16(rem, value * 0x100) == Xor16(data * 0x100, l);
    DivideLinear(poly, false, data * 0x100, l, 8);
    QuietNormal(poly, l, 8);
    assert Divide16(poly, false, l, 8) == (rem * 0x100) % 0x1_0000 by {
      ShlIsMul(l, 8);
      Pow2Values();
      assert rem * 0x100 == 0x1_0000 * (rem / 0x100) + l * 0x100;
      DivUnique(rem * 0x100, 0x1_0000, rem / 0x100, l * 0x100);
    }
  }

  /** The table lookup is byte-at-a-time polynomial division. */
  lemma TableStepIsDivision(poly: uint16, reverse: bool, rem: uint16, value: byte)
    ensures TableStep16(poly, reverse, rem, value) == Crc16Step(poly, reverse, rem, value)
  {
    if reverse {
      TableStepReflected(poly, rem, value);
    } else {
      TableStepNormal(poly, rem, value);
    }
  }

  /** CRC8::update computes `remainder << 8` in int and truncates: only the table entry survives. */
  lemma Crc8Truncation(entry: byte, rem: byte)
    ensures Xor(entry, rem * 0x100) % 0x100 == entry
  {
    assert Pow2(8) == 0x100;
    XorSplit(entry, rem * 0x100, 8);
  }

  /** One more byte of a prefix is one more step of CRC-8. */
  lemma Crc8OfPrefix(poly: byte, rem: byte, bs: seq<byte>, i: nat)
    requires i < |bs|
    ensures Crc8Of(poly, rem, bs[..i + 1]) == Crc8Step(poly, Crc8Of(poly, rem, bs[..i]), bs[i])
  {
    assert bs[..i + 1][..i] == bs[..i];
  }

  /** One more byte of a prefix is one more step of CRC-16. */
  lemma Crc16OfPrefix(poly: uint16, reverse: bool, rem: uint16, bs: seq<byte>, i: nat)
    requires i < |bs|
    ensures Crc16Of(poly, reverse, rem, bs[..i + 1]) == Crc16Step(poly, reverse, Crc16Of(poly, reverse, rem, bs[..i]), bs[i])
  {
    assert bs[..i + 1][..i] == bs[..i];
  }

  /** The bytes update(char *string) folds in: none for a null pointer, else those before the NUL. */
  function CBytes(s: Option<seq<byte>>): (bs: seq<byte>)
    requires s.Some? ==> 0 in s.value
    ensures s.None? ==> bs == []
    ensures s.Some? ==> 0 !in bs && |bs| < |s.value| && bs == s.value[..|bs|] && s.value[|bs|] == 0
  {
    if s.None? then [] else Before(s.value)
  }

  /** The bytes of a buffer before its first NUL. */
  function Before(s: seq<byte>): (bs: seq<byte>)
    requires 0 in s
    ensures 0 !in bs && |bs| < |s| && bs == s[..|bs|] && s[|bs|] == 0
  {
    if s[0] == 0 then [] else [s[0]] + Before(s[1..])
  }

  // ---------------------------------------------------------------------
  // CRC8<polynomial>

  /** The static crcTable and tableReady of one CRC8<polynomial> instance. */
  class Crc8Table {
    const poly: byte
    const table: array<byte>
    var ready: bool

    /** Once built, every entry is its dividend after eight shifts. */
    ghost predicate Valid()
      reads this, table
    {
      table.Length == 256 &&
      (ready ==> forall d: byte :: table[d] == Divide8(poly, d, 8))
    }

    /** Static storage: zeroed, not yet built. */
    constructor (polynomial: byte)
      ensures Valid() && poly == polynomial && !ready
      ensures fresh(table)
    {
      poly := polynomial;
      table := new byte[256](_ => 0);
      ready := false;
    }

    /** makeTable: build every entry, unless it has been built already. */
    method MakeTable()
      requires Valid()
      modifies this, table
      ensures Valid() && ready
      ensures old(ready) ==> table[..] == old(table[..])
    {
      if ready {
        return;
      }
      var dividend := 0;
      while dividend < 256
        invariant 0 <= dividend <= 256
        invariant forall d: byte :: d < dividend ==> table[d] == Divide8(poly, d, 8)
      {
        var remainder: byte := dividend;
        var bit := 8;
        while bit > 0
          invariant 0 <= bit <= 8
          invariant remainder == Divide8(poly, dividend, 8 - bit)
        {
          if remainder >= 0x80 {
            remainder := Xor8((remainder * 2) % 0x100, poly);
          } else {
            remainder := (remainder * 2) % 0x100;
          }
          bit := bit - 1;
        }
        table[dividend] := remainder;
        dividend := dividend + 1;
      }
      ready := true;
    }
  }

  /** A CRC8<polynomial> object: the running remainder over the shared table. */
  class Crc8 {
    const shared: Crc8Table
    var remainder: byte

    ghost predicate Valid()
      reads shared, shared.table
    {
      shared.Valid() && shared.ready
    }

    /** CRC8(): make the table, start the remainder at 0. */
    constructor (t: Crc8Table)
      requires t.Valid()
      modifies t, t.table
      ensures Valid() && shared == t && remainder == 0
    {
      shared := t;
      t.MakeTable();
      remainder := 0;
    }

    /** update(uint8_t): one table lookup, which is one byte of bitwise division. */
    method Update(value: byte) returns (r: byte)
      requires Valid()
      modifies this
      ensures Valid()
      ensures remainder == Crc8Step(shared.poly, old(remainder), value) && r == remainder
    {
      var data := Xor8(value, remainder);
      XorComm(value, remainder);
      Crc8Truncation(shared.table[data], remainder);
      remainder := Xor(shared.table[data], remainder * 0x100) % 0x100;
      r := remainder;
    }

    /** update(char *string): every byte before the NUL; a null pointer changes nothing. */
    method UpdateString(s: Option<seq<byte>>) returns (r: byte)
      requires Valid()
      requires s.Some? ==> 0 in s.value
      modifies this
      ensures Valid()
      ensures remainder == Crc8Of(shared.poly, old(remainder), CBytes(s)) && r == remainder
    {
      if s.None? {
        return remainder;
      }
      var str := s.value;
      var i := 0;
      ghost var bs := CBytes(s);
      while str[i] != 0
        invariant 0 <= i <= |bs|
        invariant remainder == Crc8Of(shared.poly, old(remainder), bs[..i])
        invariant Valid()
        decreases |bs| - i
      {
        Crc8OfPrefix(shared.poly, old(remainder), bs, i);
        var _ := Update(str[i]);
        i := i + 1;
      }
      assert bs[..i] == bs;
      r := remainder;
    }
  }

  // ---------------------------------------------------------------------
  // CRC16<polynomial, reverse>

  /** The static crcTable and tableReady of one CRC16<polynomial, reverse> instance. */
  class Crc16Table {
    const poly: uint16
    const reverse: bool
    const table: array<uint16>
    var ready: bool

    /** Once built, every entry is its dividend after eight shifts. */
    ghost predicate Valid()
      reads this, table
    {
      table.Length == 256 &&
      (ready ==> forall d: byte :: table[d] == Entry16(poly, reverse, d))
    }

    /** Static storage: zeroed, not yet built. */
    constructor (polynomial: uint16, reflected: bool)
      ensures Valid() && poly == polynomial && reverse == reflected && !ready
      ensures fresh(table)
    {
      poly := polynomial;
      reverse := reflected;
      table := new uint16[256](_ => 0);
      ready := false;
    }

    /** makeTable: build every entry, unless it has been built already. */
    method MakeTable()
      requires Valid()
      modifies this, table
      ensures Valid() && ready
      ensures old(ready) ==> table[..] == old(table[..])
    {
      if ready {
        return;
      }
      var dividend := 0;
      while dividend < 256
        invariant 0 <= dividend <= 256
        invariant forall d: byte :: d < dividend ==> table[d] == Entry16(poly, reverse, d)
      {
        table[dividend] := Entry(dividend);
        dividend := dividend + 1;
      }
      ready := true;
    }

    /** The inner loop of makeTable: eight shifts of one dividend. */
    method Entry(dividend: byte) returns (remainder: uint16)
      ensures remainder == Entry16(poly, reverse, dividend)
    {
      if reverse {
        remainder := dividend;
      } else {
        remainder := dividend * 0x100;
      }
      ghost var start := remainder;
      var bit := 8;
      while bit > 0
        invariant 0 <= bit <= 8
        invariant remainder == Divide16(poly, reverse, start, 8 - bit)
      {
        if reverse {
          if remainder % 2 == 1 {
            remainder := Xor16(remainder / 2, poly);
          } else {
            remainder := remainder / 2;
          }
        } else {
          if remainder >= 0x8000 {
            remainder := Xor16((remainder * 2) % 0x1_0000, poly);
          } else {
            remainder := (remainder * 2) % 0x1_0000;
          }
        }
        bit := bit - 1;
      }
    }
  }

  /** A CRC16<polynomial, reverse> object: the running remainder over the shared table. */
  class Crc16 {
    const shared: Crc16Table
    var remainder: uint16

    ghost predicate Valid()
      reads shared, shared.table
    {
      shared.Valid() && shared.ready
    }

    /** CRC16(): make the table, start the remainder at 0. */
    constructor (t: Crc16Table)
      requires t.Valid()
      modifies t, t.table
      ensures Valid() && shared == t && remainder == 0
    {
      shared := t;
      t.MakeTable();
      remainder := 0;
    }

    /** update(uint8_t): one table lookup, which is one byte of bitwise division. */
    method Update(value: byte) returns (r: uint16)
      requires Valid()
      modifies this
      ensures Valid()
      ensures remainder == Crc16Step(shared.poly, shared.reverse, old(remainder), value) && r == remainder
    {
      TableStepIsDivision(shared.poly, shared.reverse, remainder, value);
      if shared.reverse {
        var data := Xor8(value, remainder % 0x100);
        remainder := Xor16(shared.table[data], remainder / 0x100);
      } else {
        var data := Xor8(value, remainder / 0x100);
        remainder := Xor16(shared.table[data], (remainder * 0x100) % 0x1_0000);
      }
      r := remainder;
    }

    /** The remainder is the CRC-16 of the first `i` bytes of `bs`, from `rem0`. */
    ghost predicate Folded(rem0: uint16, bs: seq<byte>, i: nat)
      reads this, shared
    {
      i <= |bs| && remainder == Crc16Of(shared.poly, shared.reverse, rem0, bs[..i])
    }

    /** One iteration of update(char *string): the next byte is folded in. */
    method UpdateAt(ghost rem0: uint16, ghost bs: seq<byte>, i: nat, value: byte)
      requires Valid() && Folded(rem0, bs, i) && i < |bs| && value == bs[i]
      modifies this
      ensures Valid() && Folded(rem0, bs, i + 1)
    {
      Crc16OfPrefix(shared.poly, shared.reverse, rem0, bs, i);
      var _ := Update(value);
    }

    /** update(char *string): every byte before the NUL; a null pointer changes nothing. */
    method UpdateString(s: Option<seq<byte>>) returns (r: uint16)
      requires Valid()
      requires s.Some? ==> 0 in s.value
      modifies this
      ensures Valid()
      ensures remainder == Crc16Of(shared.poly, shared.reverse, old(remainder), CBytes(s)) && r == remainder
    {
      if s.None? {
        return remainder;
      }
      var str := s.value;
      var i := 0;
      ghost var bs, rem0 := CBytes(s), remainder;
      while str[i] != 0
        invariant Valid() && Folded(rem0, bs, i)
        decreases |bs| - i
      {
        UpdateAt(rem0, bs, i, str[i]);
        i := i + 1;
      }
      assert bs[..i] == bs;
      r := remainder;
    }
  }
}
