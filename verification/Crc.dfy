/** CRC-32 as in `zlib.crc32`: a fold over bytes with an inverted register
    (RFC 1952 section 8). */
module Crc {
  import opened Bytes

  const POLYNOMIAL: nat := 0xEDB8_8320
  const ALL_ONES: nat := 0xFFFF_FFFF

  /** Bitwise exclusive or. */
  function Xor(a: nat, b: nat): nat
    decreases a + b
  {
    if a == 0 || b == 0 then a + b else (a + b) % 2 + 2 * Xor(a / 2, b / 2)
  }

  /** One bit of division by the reflected polynomial. */
  function Shift(register: nat): (r: nat)
    requires register <= ALL_ONES
    ensures r <= ALL_ONES
  {
    var half := register / 2;
    if register % 2 == 1 then Xor(half, POLYNOMIAL) % (ALL_ONES + 1) else half
  }

  function Step(register: nat, b: byte): (r: nat)
    requires register <= ALL_ONES
    ensures r <= ALL_ONES
  {
    Shift(Shift(Shift(Shift(Shift(Shift(Shift(Shift(Xor(register, b) % (ALL_ONES + 1)))))))))
  }

  function Fold(register: nat, data: bytes): (r: nat)
    requires register <= ALL_ONES
    ensures r <= ALL_ONES
    decreases data
  {
    if data == [] then register else Fold(Step(register, data[0]), data[1..])
  }

  /** `zlib.crc32(data, crc)` */
  function Update(crc: nat, data: bytes): (r: nat)
    requires crc <= ALL_ONES
    ensures r <= ALL_ONES
  {
    ALL_ONES - Fold(ALL_ONES - crc, data)
  }

  function Crc32(data: bytes): (r: nat)
    ensures r <= ALL_ONES
  {
    Update(0, data)
  }

  lemma {:induction false} FoldConcat(register: nat, a: bytes, b: bytes)
    requires register <= ALL_ONES
    ensures Fold(register, a + b) == Fold(Fold(register, a), b)
    decreases a
  {
    hide Step;
    if a == [] {
      assert a + b == b;
    } else {
      assert (a + b)[1..] == a[1..] + b && (a + b)[0] == a[0];
      FoldConcat(Step(register, a[0]), a[1..], b);
    }
  }

  /** Checksumming block by block gives the checksum of the whole. */
  lemma UpdateConcat(crc: nat, a: bytes, b: bytes)
    requires crc <= ALL_ONES
    ensures Update(Update(crc, a), b) == Update(crc, a + b)
  {
    hide Fold;
    FoldConcat(ALL_ONES - crc, a, b);
  }

  // ---- what the fold computes ----

  function Bit(n: nat, k: nat): nat {
    if k == 0 then n % 2 else Bit(n / 2, k - 1)
  }

  lemma {:induction false} NoBits(k: nat)
    ensures Bit(0, k) == 0
  {
    if k > 0 { NoBits(k - 1); }
  }

  /** Bit by bit, the result is odd exactly when one operand is. */
  lemma {:induction false} XorBits(a: nat, b: nat, k: nat)
    ensures Bit(Xor(a, b), k) == (Bit(a, k) + Bit(b, k)) % 2
    decreases k
  {
    BitIsBit(a, k);
    BitIsBit(b, k);
    if a == 0 || b == 0 {
      NoBits(k);
    } else if k > 0 {
      XorBits(a / 2, b / 2, k - 1);
      assert Xor(a, b) / 2 == Xor(a / 2, b / 2);
    }
  }

  lemma {:induction false} BitIsBit(n: nat, k: nat)
    ensures Bit(n, k) <= 1
  {
    if k > 0 { BitIsBit(n / 2, k - 1); }
  }

  function Pow2(n: nat): (p: nat)
    ensures p >= 1
  {
    if n == 0 then 1 else 2 * Pow2(n - 1)
  }

  lemma {:induction false} XorBelow(n: nat, a: nat, b: nat)
    requires a < Pow2(n) && b < Pow2(n)
    ensures Xor(a, b) < Pow2(n)
    decreases n
  {
    if a != 0 && b != 0 { XorBelow(n - 1, a / 2, b / 2); }
  }

  lemma ThirtyTwo()
    ensures Pow2(32) == ALL_ONES + 1 && Pow2(24) == 0x100_0000
  {
    assert Pow2(8) == 0x100;
    assert Pow2(16) == 0x1_0000;
    assert Pow2(24) == 0x100_0000;
  }

  /** A shift divides by two, and takes the polynomial from an odd register. */
  lemma ShiftBits(register: nat, k: nat)
    requires register <= ALL_ONES
    ensures Bit(Shift(register), k) == (Bit(register, k + 1) + register % 2 * Bit(POLYNOMIAL, k)) % 2
  {
    hide Xor, Pow2;
    var half := register / 2;
    ThirtyTwo();
    XorBelow(32, half, POLYNOMIAL);
    XorBits(half, POLYNOMIAL, k);
    BitIsBit(half, k);
  }

  /** A byte is added to the register, which is then shifted eight times. */
  lemma StepShifts(register: nat, b: byte)
    requires register <= ALL_ONES
    ensures Xor(register, b) <= ALL_ONES
    ensures Step(register, b) == Shift(Shift(Shift(Shift(Shift(Shift(Shift(Shift(Xor(register, b)))))))))
  {
    hide Xor, Pow2, Shift;
    ThirtyTwo();
    XorBelow(32, register, b);
  }

  lemma OnesHalved(p: nat, b: nat)
    requires b < 2 * p
    ensures (2 * p - 1) / 2 == p - 1 && (2 * p - 1 + b) % 2 + 2 * (p - 1 - b / 2) == 2 * p - 1 - b
  {
  }

  lemma {:induction false} XorOnes(n: nat, b: nat)
    requires b < Pow2(n)
    ensures Xor(Pow2(n) - 1, b) == Pow2(n) - 1 - b
  {
    hide Xor, Pow2;
    Doubles(n);
    if n == 0 {
      XorZero(b);
    } else {
      XorOnes(n - 1, b / 2);
      XorStep(Pow2(n) - 1, b);
      OnesHalved(Pow2(n - 1), b);
    }
  }

  /** Below a higher part of one operand the other decides. */
  lemma {:induction false} XorBelowPart(n: nat, x: nat, h: nat, y: nat)
    requires x < Pow2(n) && y < Pow2(n)
    ensures Xor(x, h * Pow2(n) + y) == h * Pow2(n) + Xor(x, y)
    decreases n
  {
    hide Xor, Pow2;
    Doubles(n);
    if n == 0 {
      XorZero(h);
      XorZero(0);
    } else {
      XorBelowPart(n - 1, x / 2, h, y / 2);
      Twice(h, Pow2(n - 1));
      OneBit(x, h * Pow2(n - 1), y);
    }
  }

  lemma Doubles(n: nat)
    ensures Pow2(n) == if n == 0 then 1 else 2 * Pow2(n - 1)
  {
  }

  lemma Twice(h: nat, p: nat)
    ensures h * (2 * p) == 2 * (h * p)
  {
  }

  lemma OneBit(x: nat, part: nat, y: nat)
    requires Xor(x / 2, part + y / 2) == part + Xor(x / 2, y / 2)
    ensures Xor(x, 2 * part + y) == 2 * part + Xor(x, y)
  {
    hide Xor;
    XorStep(x, y);
    XorStep(x, 2 * part + y);
  }

  lemma XorStep(a: nat, b: nat)
    ensures Xor(a, b) == (a + b) % 2 + 2 * Xor(a / 2, b / 2)
  {
  }

  lemma XorZero(b: nat)
    ensures Xor(0, b) == b
  {
  }

  lemma Halves(register: nat)
    requires register <= ALL_ONES && register % 2 == 0
    ensures Shift(register) == register / 2
  {
    hide Xor;
  }

  lemma OddShift()
    ensures Shift(0x1FF_FFFF) == 0xED47_7CDF
  {
    hide Xor, Pow2;
    ThirtyTwo();
    XorBelowPart(24, 0xFF_FFFF, 0xED, 0xB8_8320);
    XorOnes(24, 0xB8_8320);
  }

  lemma OneByte(b: byte)
    ensures Crc32([b]) == ALL_ONES - Step(ALL_ONES, b)
  {
    hide Step;
    var data: bytes := [b];
    assert data[1..] == [] && data[0] == b;
    assert Fold(ALL_ONES, data) == Fold(Step(ALL_ONES, b), []);
  }

  lemma Inverted(b: byte)
    ensures Xor(ALL_ONES, b) == ALL_ONES - b
  {
    hide Xor, Pow2;
    ThirtyTwo();
    XorOnes(32, b);
  }

  /** The checksum of one byte of 0x7f, and of one of 0xff. */
  lemma CheckValues()
    ensures Crc32([0x7F]) == 0x12B8_8320 && Crc32([0xFF]) == 0xFF00_0000
  {
    hide Xor, Shift, Crc32;
    OneByte(0x7F);
    OneByte(0xFF);
    Inverted(0x7F);
    Inverted(0xFF);
    Halves(0xFFFF_FF80); Halves(0x7FFF_FFC0); Halves(0x3FFF_FFE0); Halves(0x1FFF_FFF0);
    Halves(0xFFF_FFF8); Halves(0x7FF_FFFC); Halves(0x3FF_FFFE);
    OddShift();
    Halves(0xFFFF_FF00); Halves(0x7FFF_FF80); Halves(0x3FFF_FFC0); Halves(0x1FFF_FFE0);
    Halves(0xFFF_FFF0); Halves(0x7FF_FFF8); Halves(0x3FF_FFFC); Halves(0x1FF_FFFE);
  }
}
