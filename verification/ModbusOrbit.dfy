/** How long the checksum register runs before it comes back to where it was. */
module ModbusOrbit {
  import opened ModbusCrc

  /** The word the polynomial 1 stands for: everything is a sum of shifts of it. */
  const UNIT: bv16 := 0x8000

  lemma HalvedLinear(a: bv16, b: bv16)
    ensures Halved(Xor(a, b)) == Xor(Halved(a), Halved(b))
  {
  }

  lemma CarryLinear(a: bv16, b: bv16)
    ensures Carry(Xor(a, b)) == (Carry(a) != Carry(b))
  {
  }

  lemma XorAssociates(a: bv16, b: bv16, c: bv16)
    ensures Xor(Xor(a, b), c) == Xor(a, Xor(b, c))
  {
  }

  lemma XorCommutes(a: bv16, b: bv16)
    ensures Xor(a, b) == Xor(b, a)
  {
  }

  lemma XorRegroup(a: bv16, b: bv16, c: bv16, d: bv16)
    ensures Xor(Xor(a, b), Xor(c, d)) == Xor(Xor(a, c), Xor(b, d))
  {
    hide Xor;
    XorAssociates(a, b, Xor(c, d));
    XorAssociates(b, c, d);
    XorCommutes(b, c);
    XorAssociates(c, b, d);
    XorAssociates(a, c, Xor(b, d));
  }

  lemma PolyTwice(a: bv16, b: bv16)
    ensures Xor(MinusPoly(a), MinusPoly(b)) == Xor(a, b)
  {
  }

  lemma ShiftLinear(a: bv16, b: bv16)
    ensures Shift(Xor(a, b)) == Xor(Shift(a), Shift(b))
  {
    hide Halved, Carry, MinusPoly, Xor, Shift;
    ShiftParts(a);
    ShiftParts(b);
    ShiftParts(Xor(a, b));
    HalvedLinear(a, b);
    CarryLinear(a, b);
    PolyMoves(Halved(a), Halved(b));
    PolyMoves(Halved(b), Halved(a));
    XorCommutes(Halved(a), Halved(b));
    XorCommutes(Halved(a), MinusPoly(Halved(b)));
    PolyTwice(Halved(a), Halved(b));
  }

  lemma {:induction false} ShiftsLinear(a: bv16, b: bv16, n: nat)
    ensures Shifts(Xor(a, b), n) == Xor(Shifts(a, n), Shifts(b, n))
    decreases n
  {
    hide Shift, Xor;
    if n > 0 {
      ShiftLinear(a, b);
      ShiftsLinear(Shift(a), Shift(b), n - 1);
    }
  }

  lemma {:induction false} ShiftsAdd(c: bv16, m: nat, n: nat)
    ensures Shifts(c, m + n) == Shifts(Shifts(c, m), n)
    decreases m
  {
    hide Shift;
    if m > 0 {
      ShiftsAdd(Shift(c), m - 1, n);
    }
  }

  function And(a: bv16, b: bv16): bv16 {
    a & b
  }

  function Pick(x: bv16, bit: bv16, v: bv16): bv16 {
    if x & bit != 0 then v else 0
  }

  /** Multiplication modulo the polynomial: the shifts of `p` that `x` selects. */
  function Times(x: bv16, p: bv16, n: nat, bit: bv16): bv16
    decreases n
  {
    if n == 0 then 0 else Xor(Pick(x, bit, p), Times(x, Shift(p), n - 1, bit >> 1))
  }

  lemma PickShifts(x: bv16, bit: bv16, v: bv16, k: nat)
    ensures Shifts(Pick(x, bit, v), k) == Pick(x, bit, Shifts(v, k))
  {
    ShiftsZero(k);
  }

  lemma ShiftsCommute(c: bv16, k: nat)
    ensures Shifts(Shift(c), k) == Shift(Shifts(c, k))
  {
    hide Shift;
    ShiftsAdd(c, 1, k);
    ShiftsAdd(c, k, 1);
    assert Shifts(c, 1) == Shifts(Shift(c), 0) && Shifts(Shifts(c, k), 1) == Shifts(Shift(Shifts(c, k)), 0);
  }

  lemma {:induction false} TimesShifts(x: bv16, p: bv16, n: nat, bit: bv16, k: nat)
    ensures Shifts(Times(x, p, n, bit), k) == Times(x, Shifts(p, k), n, bit)
    decreases n
  {
    hide Shift, Xor, Pick;
    if n == 0 {
      ShiftsZero(k);
    } else {
      ShiftsLinear(Pick(x, bit, p), Times(x, Shift(p), n - 1, bit >> 1), k);
      PickShifts(x, bit, p, k);
      ShiftsCommute(p, k);
      TimesShifts(x, Shift(p), n - 1, bit >> 1, k);
    }
  }

  /** Times over all sixteen bits, written out. */
  function Product(x: bv16, p0: bv16): bv16 {
    var p1 := Shift(p0);
    var p2 := Shift(p1);
    var p3 := Shift(p2);
    var p4 := Shift(p3);
    var p5 := Shift(p4);
    var p6 := Shift(p5);
    var p7 := Shift(p6);
    var p8 := Shift(p7);
    var p9 := Shift(p8);
    var p10 := Shift(p9);
    var p11 := Shift(p10);
    var p12 := Shift(p11);
    var p13 := Shift(p12);
    var p14 := Shift(p13);
    var p15 := Shift(p14);
    Xor(Pick(x, 0x8000, p0), Xor(Pick(x, 0x4000, p1), Xor(Pick(x, 0x2000, p2), Xor(Pick(x, 0x1000, p3),
    Xor(Pick(x, 0x0800, p4), Xor(Pick(x, 0x0400, p5), Xor(Pick(x, 0x0200, p6), Xor(Pick(x, 0x0100, p7),
    Xor(Pick(x, 0x0080, p8), Xor(Pick(x, 0x0040, p9), Xor(Pick(x, 0x0020, p10), Xor(Pick(x, 0x0010, p11),
    Xor(Pick(x, 0x0008, p12), Xor(Pick(x, 0x0004, p13), Xor(Pick(x, 0x0002, p14), Xor(Pick(x, 0x0001, p15), 0))))))))))))))))
  }

  lemma TimesStep(x: bv16, p: bv16, n: nat, bit: bv16, half: bv16, rest: bv16)
    requires n > 0 && half == bit >> 1 && rest == Times(x, Shift(p), n - 1, half)
    ensures Times(x, p, n, bit) == Xor(Pick(x, bit, p), rest)
  {
  }

  lemma ProductIsTimes(x: bv16, p0: bv16)
    ensures Product(x, p0) == Times(x, p0, 16, 0x8000)
  {
    var p1 := Shift(p0);
    var p2 := Shift(p1);
    var p3 := Shift(p2);
    var p4 := Shift(p3);
    var p5 := Shift(p4);
    var p6 := Shift(p5);
    var p7 := Shift(p6);
    var p8 := Shift(p7);
    var p9 := Shift(p8);
    var p10 := Shift(p9);
    var p11 := Shift(p10);
    var p12 := Shift(p11);
    var p13 := Shift(p12);
    var p14 := Shift(p13);
    var p15 := Shift(p14);
    hide Shift, Xor, Pick;
    var t16: bv16 := 0;
    var t15 := Xor(Pick(x, 0x0001, p15), t16);
    TimesStep(x, p15, 1, 0x0001, 0x0000, t16);
    var t14 := Xor(Pick(x, 0x0002, p14), t15);
    TimesStep(x, p14, 2, 0x0002, 0x0001, t15);
    var t13 := Xor(Pick(x, 0x0004, p13), t14);
    TimesStep(x, p13, 3, 0x0004, 0x0002, t14);
    var t12 := Xor(Pick(x, 0x0008, p12), t13);
    TimesStep(x, p12, 4, 0x0008, 0x0004, t13);
    var t11 := Xor(Pick(x, 0x0010, p11), t12);
    TimesStep(x, p11, 5, 0x0010, 0x0008, t12);
    var t10 := Xor(Pick(x, 0x0020, p10), t11);
    TimesStep(x, p10, 6, 0x0020, 0x0010, t11);
    var t9 := Xor(Pick(x, 0x0040, p9), t10);
    TimesStep(x, p9, 7, 0x0040, 0x0020, t10);
    var t8 := Xor(Pick(x, 0x0080, p8), t9);
    TimesStep(x, p8, 8, 0x0080, 0x0040, t9);
    var t7 := Xor(Pick(x, 0x0100, p7), t8);
    TimesStep(x, p7, 9, 0x0100, 0x0080, t8);
    var t6 := Xor(Pick(x, 0x0200, p6), t7);
    TimesStep(x, p6, 10, 0x0200, 0x0100, t7);
    var t5 := Xor(Pick(x, 0x0400, p5), t6);
    TimesStep(x, p5, 11, 0x0400, 0x0200, t6);
    var t4 := Xor(Pick(x, 0x0800, p4), t5);
    TimesStep(x, p4, 12, 0x0800, 0x0400, t5);
    var t3 := Xor(Pick(x, 0x1000, p3), t4);
    TimesStep(x, p3, 13, 0x1000, 0x0800, t4);
    var t2 := Xor(Pick(x, 0x2000, p2), t3);
    TimesStep(x, p2, 14, 0x2000, 0x1000, t3);
    var t1 := Xor(Pick(x, 0x4000, p1), t2);
    TimesStep(x, p1, 15, 0x4000, 0x2000, t2);
    var t0 := Xor(Pick(x, 0x8000, p0), t1);
    TimesStep(x, p0, 16, 0x8000, 0x4000, t1);
  }

  function Or(a: bv16, b: bv16): bv16 {
    a | b
  }

  lemma AndOr(x: bv16, m: bv16, bit: bv16)
    ensures And(x, Or(m, bit)) == Or(And(x, m), And(x, bit))
  {
  }

  lemma AndAnd(x: bv16, m: bv16, bit: bv16)
    ensures And(And(x, m), bit) == And(x, And(m, bit))
  {
  }

  lemma OrIsXor(a: bv16, b: bv16)
    ensures Or(a, b) == Xor(Xor(b, a), And(a, b))
  {
  }

  lemma XorZeroRight(a: bv16)
    ensures Xor(a, 0) == a
  {
  }

  lemma OrDisjoint(a: bv16, b: bv16)
    requires And(a, b) == 0
    ensures Or(a, b) == Xor(b, a)
  {
    hide And, Or, Xor;
    OrIsXor(a, b);
    XorZeroRight(Xor(b, a));
  }

  lemma Zero(a: bv16)
    ensures And(a, 0) == 0 && Or(a, 0) == a == Xor(0, a)
  {
  }

  lemma PickParts(x: bv16, bit: bv16, v: bv16)
    ensures Pick(x, bit, v) == if And(x, bit) != 0 then v else 0
  {
  }

  predicate OneBit(bit: bv16) {
    bit in [0x0001, 0x0002, 0x0004, 0x0008, 0x0010, 0x0020, 0x0040, 0x0080,
            0x0100, 0x0200, 0x0400, 0x0800, 0x1000, 0x2000, 0x4000, 0x8000]
  }

  lemma OneBitAlone(x: bv16, bit: bv16)
    requires OneBit(bit)
    ensures And(x, bit) == 0 || And(x, bit) == bit
    ensures bit != 0
  {
  }

  lemma PickNextBit(x: bv16, bit: bv16, m: bv16, m': bv16)
    requires OneBit(bit) && And(m, bit) == 0 && m' == Or(m, bit)
    ensures Xor(Pick(x, bit, bit), And(x, m)) == And(x, m')
  {
    hide And, Or, Xor, OneBit, Pick;
    PickParts(x, bit, bit);
    OneBitAlone(x, bit);
    AndOr(x, m, bit);
    AndAnd(x, m, bit);
    Zero(x);
    Zero(And(x, m));
    OrDisjoint(And(x, m), And(x, bit));
  }

  lemma BitsOfWord(x: bv16)
    ensures x ==
    Xor(Pick(x, 0x8000, 0x8000), Xor(Pick(x, 0x4000, 0x4000), Xor(Pick(x, 0x2000, 0x2000), Xor(Pick(x, 0x1000, 0x1000),
    Xor(Pick(x, 0x0800, 0x0800), Xor(Pick(x, 0x0400, 0x0400), Xor(Pick(x, 0x0200, 0x0200), Xor(Pick(x, 0x0100, 0x0100),
    Xor(Pick(x, 0x0080, 0x0080), Xor(Pick(x, 0x0040, 0x0040), Xor(Pick(x, 0x0020, 0x0020), Xor(Pick(x, 0x0010, 0x0010),
    Xor(Pick(x, 0x0008, 0x0008), Xor(Pick(x, 0x0004, 0x0004), Xor(Pick(x, 0x0002, 0x0002), Xor(Pick(x, 0x0001, 0x0001), 0))))))))))))))))
  {
    assert And(x, 0x0000) == 0 && And(x, 0xFFFF) == x;
    hide Xor, Pick, And;
    PickNextBit(x, 0x0001, 0x0000, 0x0001);
    PickNextBit(x, 0x0002, 0x0001, 0x0003);
    PickNextBit(x, 0x0004, 0x0003, 0x0007);
    PickNextBit(x, 0x0008, 0x0007, 0x000F);
    PickNextBit(x, 0x0010, 0x000F, 0x001F);
    PickNextBit(x, 0x0020, 0x001F, 0x003F);
    PickNextBit(x, 0x0040, 0x003F, 0x007F);
    PickNextBit(x, 0x0080, 0x007F, 0x00FF);
    PickNextBit(x, 0x0100, 0x00FF, 0x01FF);
    PickNextBit(x, 0x0200, 0x01FF, 0x03FF);
    PickNextBit(x, 0x0400, 0x03FF, 0x07FF);
    PickNextBit(x, 0x0800, 0x07FF, 0x0FFF);
    PickNextBit(x, 0x1000, 0x0FFF, 0x1FFF);
    PickNextBit(x, 0x2000, 0x1FFF, 0x3FFF);
    PickNextBit(x, 0x4000, 0x3FFF, 0x7FFF);
    PickNextBit(x, 0x8000, 0x7FFF, 0xFFFF);
  }

  /** Every word is the sum of the shifts of UNIT that its bits select. */
  lemma ProductWithUnit(x: bv16)
    ensures Product(x, UNIT) == x
  {
    assert Shift(0x8000) == 0x4000;
    assert Shift(0x4000) == 0x2000;
    assert Shift(0x2000) == 0x1000;
    assert Shift(0x1000) == 0x0800;
    assert Shift(0x0800) == 0x0400;
    assert Shift(0x0400) == 0x0200;
    assert Shift(0x0200) == 0x0100;
    assert Shift(0x0100) == 0x0080;
    assert Shift(0x0080) == 0x0040;
    assert Shift(0x0040) == 0x0020;
    assert Shift(0x0020) == 0x0010;
    assert Shift(0x0010) == 0x0008;
    assert Shift(0x0008) == 0x0004;
    assert Shift(0x0004) == 0x0002;
    assert Shift(0x0002) == 0x0001;
    hide Shift, Xor, Pick;
    BitsOfWord(x);
  }

  /** Shifting `x` by `k` multiplies it by the `k`-th power. */
  lemma ShiftsAreProducts(x: bv16, k: nat)
    ensures Shifts(x, k) == Product(x, Shifts(UNIT, k))
  {
    hide Product, Times, Shift;
    ProductWithUnit(x);
    ProductIsTimes(x, UNIT);
    TimesShifts(x, UNIT, 16, 0x8000, k);
    ProductIsTimes(x, Shifts(UNIT, k));
  }

  lemma DoubleTo(h: nat, k: nat, v: bv16, v': bv16)
    requires Shifts(UNIT, h) == v
    requires (k == 2 * h && v' == Product(v, v)) || (k == 2 * h + 1 && v' == Shift(Product(v, v)))
    ensures Shifts(UNIT, k) == v'
  {
    hide Product, Shift;
    ShiftsAreProducts(v, h);
    ShiftsAdd(UNIT, h, h);
    if k == 2 * h + 1 {
      ShiftsAdd(UNIT, 2 * h, 1);
      assert Shifts(Shifts(UNIT, 2 * h), 1) == Shifts(Shift(Shifts(UNIT, 2 * h)), 0);
    }
  }

  lemma Orbit255()
    ensures Shifts(UNIT, 255) == 0x5001
  {
    assert Shifts(UNIT, 1) == 0x4000;
    DoubleTo(1, 3, 0x4000, 0x1000);
    DoubleTo(3, 7, 0x1000, 0x0100);
    DoubleTo(7, 15, 0x0100, 0x0001);
    DoubleTo(15, 31, 0x0001, 0x9001);
    DoubleTo(31, 63, 0x9001, 0xD101);
    DoubleTo(63, 127, 0xD101, 0xC100);
    DoubleTo(127, 255, 0xC100, 0x5001);
  }

  lemma Orbit32767()
    ensures Shifts(UNIT, 32767) == 0x8000
  {
    Orbit255();
    DoubleTo(255, 511, 0x5001, 0x8101);
    DoubleTo(511, 1023, 0x8101, 0xD000);
    DoubleTo(1023, 2047, 0xD000, 0x5100);
    DoubleTo(2047, 4095, 0x5100, 0x1101);
    DoubleTo(4095, 8191, 0x1101, 0x9100);
    DoubleTo(8191, 16383, 0x9100, 0x4101);
    DoubleTo(16383, 32767, 0x4101, 0x8000);
  }

  lemma Orbit73()
    ensures Shifts(UNIT, 73) == 0x3004
  {
    assert Shifts(UNIT, 1) == 0x4000;
    DoubleTo(1, 2, 0x4000, 0x2000);
    DoubleTo(2, 4, 0x2000, 0x0800);
    DoubleTo(4, 9, 0x0800, 0x0040);
    DoubleTo(9, 18, 0x0040, 0xD801);
    DoubleTo(18, 36, 0xD801, 0xC281);
    DoubleTo(36, 73, 0xC281, 0x3004);
  }

  lemma Orbit4681()
    ensures Shifts(UNIT, 4681) == 0x8C69
  {
    Orbit73();
    DoubleTo(73, 146, 0x3004, 0xCA19);
    DoubleTo(146, 292, 0xCA19, 0xC169);
    DoubleTo(292, 585, 0xC169, 0x0F31);
    DoubleTo(585, 1170, 0x0F31, 0x672B);
    DoubleTo(1170, 2340, 0x672B, 0x8E4C);
    DoubleTo(2340, 4681, 0x8E4C, 0x8C69);
  }

  lemma Orbit1057()
    ensures Shifts(UNIT, 1057) == 0xCE41
  {
    assert Shifts(UNIT, 1) == 0x4000;
    DoubleTo(1, 2, 0x4000, 0x2000);
    DoubleTo(2, 4, 0x2000, 0x0800);
    DoubleTo(4, 8, 0x0800, 0x0080);
    DoubleTo(8, 16, 0x0080, 0xA001);
    DoubleTo(16, 33, 0xA001, 0xD401);
    DoubleTo(33, 66, 0xD401, 0xC221);
    DoubleTo(66, 132, 0xC221, 0x0608);
    DoubleTo(132, 264, 0x0608, 0xC049);
    DoubleTo(264, 528, 0xC049, 0xD861);
    DoubleTo(528, 1057, 0xD861, 0xCE41);
  }

  lemma Orbit217()
    ensures Shifts(UNIT, 217) == 0x3E55
  {
    assert Shifts(UNIT, 1) == 0x4000;
    DoubleTo(1, 3, 0x4000, 0x1000);
    DoubleTo(3, 6, 0x1000, 0x0200);
    DoubleTo(6, 13, 0x0200, 0x0004);
    DoubleTo(13, 27, 0x0004, 0xC00D);
    DoubleTo(27, 54, 0xC00D, 0xC079);
    DoubleTo(54, 108, 0xC079, 0xDFE1);
    DoubleTo(108, 217, 0xDFE1, 0x3E55);
  }

  // ----- The register's period is 32767 -------------------------------------------

  predicate Returns(k: nat) {
    Shifts(UNIT, k) == UNIT
  }

  lemma ReturnsDifference(a: nat, b: nat)
    requires Returns(a + b) && Returns(b)
    ensures Returns(a)
  {
    hide Shift;
    ShiftsAdd(UNIT, b, a);
    assert b + a == a + b;
  }

  lemma {:induction false} ReturnsMultiple(k: nat, n: nat)
    requires Returns(k)
    ensures Returns(k * n)
  {
    hide Shift;
    if n == 0 {
      assert k * n == 0;
    } else {
      ReturnsMultiple(k, n - 1);
      ShiftsAdd(UNIT, k * (n - 1), k);
      assert k * n == k * (n - 1) + k;
    }
  }

  /** Euclid's algorithm on two multiples of `q` after which the register returns. */
  lemma Euclid(q: nat, a: nat, b: nat) returns (g: nat, x: nat, y: nat)
    requires a > 0 && b > 0 && Returns(q * a) && Returns(q * b)
    ensures a == g * x && b == g * y && Returns(q * g)
    decreases a + b
  {
    hide Returns;
    if a == b {
      g, x, y := a, 1, 1;
    } else if a > b {
      assert q * (a - b) + q * b == q * a;
      ReturnsDifference(q * (a - b), q * b);
      g, x, y := Euclid(q, a - b, b);
      assert g * (x + y) == g * x + g * y;
      x := x + y;
    } else {
      assert q * (b - a) + q * a == q * b;
      ReturnsDifference(q * (b - a), q * a);
      g, x, y := Euclid(q, a, b - a);
      assert g * (x + y) == g * x + g * y;
      y := x + y;
    }
  }

  lemma SmallFactor(p: nat, s: nat, t: nat)
    requires (p == 7 || p == 31 || p == 151) && s <= 12 && s * t == p
    ensures s == 1 || t == 1
  {
  }

  lemma BigProduct(s: nat, t: nat)
    requires s >= 13 && t >= 13
    ensures s * t >= 169
  {
  }

  lemma Prime(p: nat, s: nat, t: nat)
    requires (p == 7 || p == 31 || p == 151) && s * t == p
    ensures s == 1 || t == 1
  {
    if s <= 12 {
      SmallFactor(p, s, t);
    } else if t <= 12 {
      SmallFactor(p, t, s);
    } else {
      BigProduct(s, t);
    }
  }

  lemma TimesOne(q: nat, g: nat)
    ensures g == 1 ==> q * g == q
  {
  }

  /** A time of return is a multiple of `p` unless the register already returns
      after the rest of the period. */
  lemma FactorOfReturn(k: nat, p: nat, q: nat) returns (x: nat)
    requires k > 0 && Returns(k) && Returns(q * p) && !Returns(q) && (p == 7 || p == 31 || p == 151)
    ensures k == p * x
  {
    ReturnsMultiple(k, q);
    assert k * q == q * k;
    var g, y;
    g, x, y := Euclid(q, k, p);
    Prime(p, g, y);
    TimesOne(q, g);
  }

  /** The register does not come back to where it was in fewer than 32767 steps. */
  lemma NoEarlyReturn(k: nat)
    requires 0 < k < 32767
    ensures !Returns(k)
  {
    Orbit32767();
    Orbit4681();
    Orbit1057();
    Orbit217();
    if Returns(k) {
      hide Shifts;
      var x := FactorOfReturn(k, 7, 4681);
      var y := FactorOfReturn(k, 31, 1057);
      var z := FactorOfReturn(k, 151, 217);
      assert false;
    }
  }

  lemma DivideBy(k: nat, m: nat)
    requires m > 0
    ensures k == k % m + m * (k / m) && k % m < m
  {
  }

  /** The register's period is exactly 32767. */
  lemma PeriodIsExact(k: nat)
    ensures Returns(k) <==> k % 32767 == 0
  {
    var q, r := k / 32767, k % 32767;
    DivideBy(k, 32767);
    Orbit32767();
    ReturnsMultiple(32767, q);
    if r > 0 {
      NoEarlyReturn(r);
      if Returns(k) {
        ReturnsDifference(r, 32767 * q);
      }
    }
  }

  /** The same from the lowest bit, which is UNIT fifteen steps on. */
  lemma LowBitReturns(k: nat)
    ensures Shifts(1, k) == 1 <==> k % 32767 == 0
  {
    hide Shift;
    FifteenSteps();
    ShiftsAdd(UNIT, 15, k);
    ShiftsAdd(UNIT, k, 15);
    PeriodIsExact(k);
    if Shifts(1, k) == 1 {
      ShiftsInjective(Shifts(UNIT, k), UNIT, 15);
    }
  }

  lemma FifteenSteps()
    ensures Shifts(UNIT, 15) == 1
  {
    assert Shifts(UNIT, 1) == 0x4000;
    DoubleTo(1, 3, 0x4000, 0x1000);
    DoubleTo(3, 7, 0x1000, 0x0100);
    DoubleTo(7, 15, 0x0100, 0x0001);
  }
}
